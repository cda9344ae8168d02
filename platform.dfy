/** What the service takes from the .NET libraries and does not define itself: the XML parser and
    serializer, XML name validation and the regular-expression engine. They are parameters of the model. */
module Platform {
  import opened XTree

  /** Regex.Match: whether the pattern matched, and the values of Groups[0], Groups[1], ... */
  datatype MatchResult = MatchResult(success: bool, groups: seq<string>)

  /** A forest whose elements are distinct objects, as a parser builds it. */
  type Forest = fs: seq<Node> | Unique(fs) witness []

  /** XDocument.Parse: either an XmlException, or the document's top-level nodes (at most one of them an
      element, the root) with the namespace declarations on the root, keyed by prefix ("" for the
      default namespace). */
  datatype Parsed = Malformed | Document(nodes: Forest, declarations: map<string, string>)

  datatype Platform = Platform(
    /** XDocument.Parse. */
    parse: string -> Parsed,
    /** XDocument.ToString. */
    serialize: seq<Node> -> string,
    /** XmlConvert.VerifyNCName succeeds: the local part of an XName is valid. */
    isNCName: string -> bool,
    /** new Regex(pattern) succeeds. */
    isValidPattern: string -> bool,
    /** Regex.Match(input, pattern), for a valid pattern. */
    regexMatch: (string, string) -> MatchResult,
    /** Regex.Replace(input, pattern, ""), for a valid pattern. */
    regexDelete: (string, string) -> string)
}
