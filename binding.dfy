/**
 * ASP.NET Core model validation of a JSON body, as it runs before an `[ApiController]`
 * action. With nullable reference types on, every property of non-nullable `string` type
 * carries an implicit `[Required]`, which refuses an empty or white-space-only string.
 * Validation visits every element of a bound collection, and one refused property makes
 * the whole request a 400 before the action runs.
 */
module Binding {
  import opened Entities

  /**
   * `char.IsWhiteSpace`: the Unicode space, line and paragraph separators, the controls
   * U+0009 to U+000D, and U+0085.
   */
  predicate IsWhiteSpace(c: char) {
    || ('\t' <= c <= '\r') || c == ' ' || c == '\U{85}' || c == '\U{A0}' || c == '\U{1680}'
    || ('\U{2000}' <= c <= '\U{200A}') || c == '\U{2028}' || c == '\U{2029}' || c == '\U{202F}'
    || c == '\U{205F}' || c == '\U{3000}'
  }

  /** `string.IsNullOrWhiteSpace` of a present string: nothing but white space, or nothing at all. */
  predicate IsBlank(s: string) {
    s == [] || (IsWhiteSpace(s[0]) && IsBlank(s[1..]))
  }

  /** What the implicit `[Required]` accepts for a non-nullable string property. */
  predicate RequiredText(s: string) {
    !IsBlank(s)
  }

  /** `FieldName` and `FieldType` are required; `DefaultValue` and `Options` are `string?`. */
  predicate FieldPasses(f: TopicField) {
    RequiredText(f.fieldName) && RequiredText(f.fieldType)
  }

  /** The five text properties of a topic are required, and so is every field it carries. */
  predicate TopicPasses(x: RequestTopic) {
    && RequiredText(x.categoryName) && RequiredText(x.topicName) && RequiredText(x.topicLabel)
    && RequiredText(x.description) && RequiredText(x.priority)
    && forall f :: f in x.fields ==> FieldPasses(f)
  }

  /** `ProjectName` and `Status` are required, and so is every topic of the body; the navigation `Project` is nullable. */
  predicate RequestPasses(dr: DocumentRequest) {
    RequiredText(dr.projectName) && RequiredText(dr.status) && forall x :: x in dr.topics ==> TopicPasses(x)
  }

  /** `ResponseText` is required. */
  predicate ResponsePasses(fr: FormResponse) {
    RequiredText(fr.responseText)
  }
}
