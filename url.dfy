/** The WHATWG URL library that resolve.ts calls into. It is not part of this model: the
    parser is a parameter of every operation that needs it, and the one property of it the
    proofs use is stated as a predicate that lemmas require. */
module WhatwgUrl {
  import opened Wrappers

  /** A URL object, as far as the import-map code looks at it: its serialisation `href`
      (section 4.5 of the URL Standard) and its `protocol`, the scheme followed by `:`. */
  datatype Url = Url(href: string, protocol: string)

  /** `new URL(input, base)` (the basic URL parser of section 4.4 of the URL Standard).
      A URL object given as the base is passed by its serialisation, as JavaScript
      stringifies it; `None` is a constructor that throws. */
  type UrlParser = (string, Option<string>) -> Option<Url>

  /** `URL.canParse(input)`. */
  predicate CanParse(parse: UrlParser, input: string)
  {
    parse(input, None).Some?
  }

  /** An assumption about the URL library, not a theorem of the URL Standard: the `href` of
      every URL the parser produces parses again without a base. */
  ghost predicate SerializationsParse(parse: UrlParser)
  {
    forall input, base {:trigger parse(input, base).value.href} :: parse(input, base).Some? ==> CanParse(parse, parse(input, base).value.href)
  }
}
