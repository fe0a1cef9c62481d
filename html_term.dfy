/// The literal delimiters and attribute names of the engine (Parsing/HtmlTerm.cs).
module HtmlTerm {

  /// Self-closing tag end.
  const TagEnd: string := "/>"
  /// Tag end.
  const TagEndAlternative: string := ">"
  const CommentTagBegin: string := "<!--"
  const CommentTagEnd: string := "-->"
  const NoIndexTagBegin: string := "<noindex>"
  const NoIndexTagEnd: string := "</noindex>"
  const NoIndexTagBeginAlternative: string := "<!--noindex-->"
  const NoIndexTagEndAlternative: string := "<!--/noindex-->"
  const ATagBegin: string := "<a"
  const ATagEnd: string := "</a>"
  /// ATagBegin.ToUpperInvariant() and ATagEnd.ToUpperInvariant().
  const ATagBeginUpper: string := "<A"
  const ATagEndUpper: string := "</A>"

  const HrefAttribute: string := "href"
  const TargetAttribute: string := "target"
  const DownloadAttribute: string := "download"
  const RelAttribute: string := "rel"
  const RevAttribute: string := "rev"
  const HrefLangAttribute: string := "hreflang"
  const TypeAttribute: string := "type"
  const NameAttribute: string := "name"
}
