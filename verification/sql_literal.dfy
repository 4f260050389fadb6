/**
 * The `IN (...)` list the project-status sweep builds from obsolete names
 * (src/projectStatus.js): every name becomes `'…'` with each single quote
 * doubled, and the literals are joined with ",". The partner here is a
 * reader of SQL string literals, which recovers exactly the names.
 */
module SqlLiteral {
  import opened Wrappers

  const Quote: char := '\''

  /** `name.replace(/'/g, "''")` */
  function EscapeQuotes(s: string): (r: string)
    ensures |r| >= |s|
  {
    if s == [] then []
    else (if s[0] == Quote then [Quote, Quote] else [s[0]]) + EscapeQuotes(s[1..])
  }

  /** `'${escaped}'` */
  function Literal(s: string): string {
    [Quote] + EscapeQuotes(s) + [Quote]
  }

  /** `names.map(Literal).join(",")` */
  function InList(names: seq<string>): string {
    if |names| == 0 then []
    else if |names| == 1 then Literal(names[0])
    else Literal(names[0]) + "," + InList(names[1..])
  }

  /**
   * Reads the body of a string literal whose opening quote is already
   * consumed: `''` stands for one quote and a lone quote ends the literal.
   * Returns the value and the text after the closing quote.
   */
  function ReadBody(t: string): (r: Option<(string, string)>)
    ensures r.Some? ==> |r.value.1| < |t|
  {
    if t == [] then None
    else if t[0] == Quote then
      if |t| >= 2 && t[1] == Quote then
        match ReadBody(t[2..])
        case Some((v, rest)) => Some(([Quote] + v, rest))
        case None => None
      else Some(([], t[1..]))
    else
      match ReadBody(t[1..])
      case Some((v, rest)) => Some(([t[0]] + v, rest))
      case None => None
  }

  /** Reads one quoted literal from the front of the text. */
  function ReadLiteral(t: string): Option<(string, string)> {
    if t != [] && t[0] == Quote then ReadBody(t[1..]) else None
  }

  /** Reads a comma-separated list of literals that spans the whole text. */
  function ReadList(t: string): Option<seq<string>>
    decreases |t|
  {
    match ReadLiteral(t)
    case None => None
    case Some((v, rest)) =>
      if rest == [] then Some([v])
      else if rest[0] == ',' then
        match ReadList(rest[1..])
        case Some(vs) => Some([v] + vs)
        case None => None
      else None
  }

  /** An escaped body followed by a lone quote reads back as the original text. */
  lemma {:induction false} ReadEscaped(s: string, rest: string)
    requires rest == [] || rest[0] != Quote
    ensures ReadBody(EscapeQuotes(s) + [Quote] + rest) == Some((s, rest))
  {
    var t := EscapeQuotes(s) + [Quote] + rest;
    if s == [] {
      assert t == [Quote] + rest;
      assert t[1..] == rest;
      assert !(|t| >= 2 && t[1] == Quote);
    } else {
      ReadEscaped(s[1..], rest);
      var tail := EscapeQuotes(s[1..]) + [Quote] + rest;
      assert ReadBody(tail) == Some((s[1..], rest));
      if s[0] == Quote {
        assert t == [Quote, Quote] + tail;
        assert t[2..] == tail;
        assert ReadBody(t) == Some(([Quote] + s[1..], rest));
      } else {
        assert t == [s[0]] + tail;
        assert t[1..] == tail;
        assert ReadBody(t) == Some(([s[0]] + s[1..], rest));
      }
      assert s == [s[0]] + s[1..];
    }
  }

  /** A quoted literal reads back as the name it was built from, whatever quotes it holds. */
  lemma LiteralRoundTrip(s: string, rest: string)
    requires rest == [] || rest[0] != Quote
    ensures ReadLiteral(Literal(s) + rest) == Some((s, rest))
  {
    ReadEscaped(s, rest);
    assert (Literal(s) + rest)[1..] == EscapeQuotes(s) + [Quote] + rest;
  }

  /**
   * The `IN (...)` list denotes exactly the names it was built from, in
   * order: doubling quotes keeps a name with a quote from ending its
   * literal early or spilling into the next one.
   */
  lemma {:induction false} InListRoundTrip(names: seq<string>)
    requires |names| >= 1
    ensures ReadList(InList(names)) == Some(names)
  {
    if |names| == 1 {
      LiteralRoundTrip(names[0], []);
      assert Literal(names[0]) + [] == Literal(names[0]);
      assert InList(names) == Literal(names[0]);
      assert ReadLiteral(InList(names)) == Some((names[0], []));
      assert names == [names[0]];
    } else {
      var tail := InList(names[1..]);
      LiteralRoundTrip(names[0], "," + tail);
      InListRoundTrip(names[1..]);
      assert InList(names) == Literal(names[0]) + ("," + tail);
      assert ("," + tail)[1..] == tail;
      assert names == [names[0]] + names[1..];
    }
  }
}
