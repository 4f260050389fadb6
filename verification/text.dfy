/**
 * String helpers shared by every entity mapping: JavaScript truthiness of
 * optional text fields, case mapping, `trim`, `split`/`join`, and the two
 * name normalisations the sync modules apply (city names and title case).
 *
 * Case mapping covers ASCII letters only; every other character is left as is.
 */
module Text {
  import opened Wrappers

  /** JavaScript truthiness of an optional text field: present and non-empty. */
  predicate Present(o: Option<string>) {
    o.Some? && o.value != ""
  }

  /** `field || fallback` for an optional text field. */
  function OrElse(o: Option<string>, fallback: string): (r: string)
    ensures Present(o) ==> r == o.value
    ensures !Present(o) ==> r == fallback
  {
    if Present(o) then o.value else fallback
  }

  /** `field || null` for an optional text field. */
  function OrNull(o: Option<string>): (r: Option<string>)
    ensures r.Some? <==> Present(o)
    ensures r.Some? ==> r == o
  {
    if Present(o) then o else None
  }

  /** `values.filter(Boolean)`: the present values, in order. */
  function Truthy(values: seq<Option<string>>): (r: seq<string>)
    ensures |r| <= |values|
    ensures forall x :: x in r <==> Some(x) in values && x != ""
    decreases |values|
  {
    if values == [] then []
    else
      var rest := Truthy(values[1..]);
      assert forall x :: Some(x) in values <==> Some(x) == values[0] || Some(x) in values[1..];
      if Present(values[0]) then [values[0].value] + rest else rest
  }

  /** One value is kept, as itself, exactly when it is truthy. */
  lemma TruthyOne(v: Option<string>)
    ensures Truthy([v]) == if Present(v) then [v.value] else []
  {
    assert [v][1..] == [];
  }

  /**
   * `filter(Boolean)` works value by value: filtering a concatenation is
   * concatenating the filtered parts, so order and repetitions are kept.
   */
  lemma {:induction false} TruthyAppend(a: seq<Option<string>>, b: seq<Option<string>>)
    ensures Truthy(a + b) == Truthy(a) + Truthy(b)
    decreases |a|
  {
    if a != [] {
      assert (a + b)[0] == a[0];
      assert (a + b)[1..] == a[1..] + b;
      TruthyAppend(a[1..], b);
    } else {
      assert a + b == b;
    }
  }

  // ---------------------------------------------------------------------
  // Case mapping
  // ---------------------------------------------------------------------

  predicate IsUpperAscii(c: char) { 'A' <= c <= 'Z' }
  predicate IsLowerAscii(c: char) { 'a' <= c <= 'z' }

  function LowerChar(c: char): char {
    if IsUpperAscii(c) then (c as int + 32) as char else c
  }

  function UpperChar(c: char): char {
    if IsLowerAscii(c) then (c as int - 32) as char else c
  }

  /** `s.toLowerCase()` */
  function Lower(s: string): (r: string)
    ensures |r| == |s|
    ensures forall i :: 0 <= i < |s| ==> r[i] == LowerChar(s[i])
  {
    seq(|s|, i requires 0 <= i < |s| => LowerChar(s[i]))
  }

  lemma LowerIdempotent(s: string)
    ensures Lower(Lower(s)) == Lower(s)
  {
  }

  // ---------------------------------------------------------------------
  // trim
  // ---------------------------------------------------------------------

  /** The characters `String.prototype.trim` removes: ECMAScript WhiteSpace and LineTerminator. */
  predicate IsJsSpace(c: char) {
    || c == '\t' || c == '\n' || c == '\U{000B}' || c == '\U{000C}' || c == '\r'
    || c == ' ' || c == '\U{00A0}' || c == '\U{1680}'
    || ('\U{2000}' <= c <= '\U{200A}')
    || c == '\U{2028}' || c == '\U{2029}' || c == '\U{202F}' || c == '\U{205F}'
    || c == '\U{3000}' || c == '\U{FEFF}'
  }

  /** Drops the leading run of whitespace. */
  function TrimStart(s: string): (r: string)
    ensures |r| <= |s|
    ensures r == s[|s| - |r|..]
    ensures r == [] || !IsJsSpace(r[0])
    ensures forall i :: 0 <= i < |s| - |r| ==> IsJsSpace(s[i])
  {
    if s != [] && IsJsSpace(s[0]) then TrimStart(s[1..]) else s
  }

  /** Drops the trailing run of whitespace. */
  function TrimEnd(s: string): (r: string)
    ensures |r| <= |s|
    ensures r == s[..|r|]
    ensures r == [] || !IsJsSpace(r[|r| - 1])
    ensures forall i :: |r| <= i < |s| ==> IsJsSpace(s[i])
  {
    if s != [] && IsJsSpace(s[|s| - 1]) then TrimEnd(s[..|s| - 1]) else s
  }

  /** `s.trim()` */
  function Trim(s: string): string {
    TrimEnd(TrimStart(s))
  }

  /** `trim` removes only whitespace, and leaves neither end on whitespace. */
  lemma TrimShape(s: string)
    ensures var a := |s| - |TrimStart(s)|; var r := Trim(s);
      && a + |r| <= |s|
      && r == s[a..a + |r|]
      && (forall i :: 0 <= i < a ==> IsJsSpace(s[i]))
      && (forall i :: a + |r| <= i < |s| ==> IsJsSpace(s[i]))
      && (r == [] || (!IsJsSpace(r[0]) && !IsJsSpace(r[|r| - 1])))
  {
    var t := TrimStart(s);
    var r := TrimEnd(t);
    var a := |s| - |t|;
    assert t == s[a..];
    assert r == t[..|r|];
    assert r == s[a..a + |r|];
    forall i | a + |r| <= i < |s|
      ensures IsJsSpace(s[i])
    {
      assert s[i] == t[i - a];
    }
  }

  /** Whatever a string lacks, its trim lacks too. */
  lemma TrimKeepsOut(s: string, c: char)
    requires c !in s
    ensures c !in Trim(s)
  {
    TrimShape(s);
    var a := |s| - |TrimStart(s)|;
    var r := Trim(s);
    forall j | 0 <= j < |r|
      ensures r[j] != c
    {
      assert r[j] == s[a + j];
    }
  }

  /** A string with no whitespace at either end is its own trim. */
  lemma TrimNoop(s: string)
    requires s == [] || (!IsJsSpace(s[0]) && !IsJsSpace(s[|s| - 1]))
    ensures Trim(s) == s
  {
  }

  // ---------------------------------------------------------------------
  // split / join
  // ---------------------------------------------------------------------

  /** `s.split(sep)` for a one-character separator; always at least one part. */
  function Split(s: string, sep: char): (parts: seq<string>)
    ensures |parts| >= 1
    ensures forall p :: p in parts ==> sep !in p
  {
    if s == [] then [[]]
    else
      var rest := Split(s[1..], sep);
      if s[0] == sep then [[]] + rest
      else [[s[0]] + rest[0]] + rest[1..]
  }

  /** `parts.join(sep)` */
  function Join(parts: seq<string>, sep: char): string {
    if |parts| == 0 then []
    else if |parts| == 1 then parts[0]
    else parts[0] + [sep] + Join(parts[1..], sep)
  }

  /** Joining with a separator glues a prefix onto the first part only. */
  lemma JoinConsFirst(x: string, a: string, rest: seq<string>, sep: char)
    ensures Join([x + a] + rest, sep) == x + Join([a] + rest, sep)
  {
    if |rest| > 0 {
      assert ([x + a] + rest)[1..] == rest;
      assert ([a] + rest)[1..] == rest;
    }
  }

  /** `s.split(sep).join(sep) === s`: splitting loses nothing. */
  lemma {:induction false} JoinSplit(s: string, sep: char)
    ensures Join(Split(s, sep), sep) == s
  {
    if s != [] {
      var rest := Split(s[1..], sep);
      JoinSplit(s[1..], sep);
      if s[0] == sep {
        assert ([[]] + rest)[1..] == rest;
        assert Join([[]] + rest, sep) == [] + [sep] + Join(rest, sep);
      } else {
        assert rest == [rest[0]] + rest[1..];
        JoinConsFirst([s[0]], rest[0], rest[1..], sep);
        assert s == [s[0]] + s[1..];
      }
    }
  }

  /** `s.split(sep)[0]`: the text before the first separator. */
  function BeforeFirst(s: string, sep: char): string {
    Split(s, sep)[0]
  }

  /** The first part is the longest separator-free prefix. */
  lemma {:induction false} BeforeFirstShape(s: string, sep: char)
    ensures var p := BeforeFirst(s, sep);
      |p| <= |s| && p == s[..|p|] && sep !in p && (|p| == |s| || s[|p|] == sep)
  {
    if s != [] {
      BeforeFirstShape(s[1..], sep);
    }
  }

  // ---------------------------------------------------------------------
  // Name normalisations
  // ---------------------------------------------------------------------

  /** `s.charAt(0).toUpperCase() + s.slice(1).toLowerCase()` */
  function Capitalize(s: string): (r: string)
    ensures |r| == |s|
  {
    if s == [] then [] else [UpperChar(s[0])] + Lower(s[1..])
  }

  /** Capitalising maps each character by itself: upper case first, lower case after. */
  lemma CapitalizeChars(s: string)
    ensures var r := Capitalize(s);
      && (r != [] ==> r[0] == UpperChar(s[0]))
      && (forall i :: 1 <= i < |r| ==> r[i] == LowerChar(s[i]))
      && (forall c :: c !in s && LowerChar(c) == c && UpperChar(c) == c ==> c !in r)
      && (r == [] || (IsJsSpace(r[0]) == IsJsSpace(s[0]) && IsJsSpace(r[|r| - 1]) == IsJsSpace(s[|s| - 1])))
  {
    var r := Capitalize(s);
    if s != [] {
      assert forall i :: 1 <= i < |r| ==> r[i] == Lower(s[1..])[i - 1];
    }
  }

  /**
   * City field cleanup shared by the cities and projects syncs: the part
   * before the first "/", trimmed, then capitalised.
   */
  function CityName(raw: string): string {
    Capitalize(Trim(BeforeFirst(raw, '/')))
  }

  /** The trimmed first segment of a city field. */
  function CitySegment(raw: string): string {
    Trim(BeforeFirst(raw, '/'))
  }

  /**
   * The city name has the trimmed first segment's letters, first one upper
   * case and the rest lower case; it holds no "/" and no outer whitespace,
   * and it is empty exactly when that segment is blank.
   */
  lemma CityNameShape(raw: string)
    ensures var seg := CitySegment(raw); var r := CityName(raw);
      && |r| == |seg|
      && (r == [] <==> seg == [])
      && '/' !in r
      && (r != [] ==> r[0] == UpperChar(seg[0]))
      && (forall i :: 1 <= i < |r| ==> r[i] == LowerChar(seg[i]))
      && (r == [] || (!IsJsSpace(r[0]) && !IsJsSpace(r[|r| - 1])))
  {
    var p := BeforeFirst(raw, '/');
    BeforeFirstShape(raw, '/');
    TrimKeepsOut(p, '/');
    var seg := Trim(p);
    TrimShape(p);
    CapitalizeChars(seg);
  }

  /** Cleaning an already cleaned city name changes nothing. */
  lemma CityNameIdempotent(raw: string)
    ensures CityName(CityName(raw)) == CityName(raw)
  {
    var r := CityName(raw);
    CityNameShape(raw);
    BeforeFirstShape(r, '/');
    assert BeforeFirst(r, '/') == r;
    TrimNoop(r);
    if r != [] {
      assert Lower(r[1..]) == r[1..];
    }
  }

  /** Upper-cases the first character of one word (the `map` step of title casing). */
  function CapitalizeWord(w: string): string {
    if w == [] then [] else [UpperChar(w[0])] + w[1..]
  }

  function CapitalizeWords(ws: seq<string>): (r: seq<string>)
    ensures |r| == |ws|
    ensures forall i :: 0 <= i < |ws| ==> r[i] == CapitalizeWord(ws[i])
  {
    if ws == [] then [] else [CapitalizeWord(ws[0])] + CapitalizeWords(ws[1..])
  }

  /**
   * Title casing of project and mega-project names:
   * `s.toLowerCase().split(" ").map(w => w.charAt(0).toUpperCase() + w.slice(1)).join(" ")`.
   */
  function TitleCase(s: string): string {
    Join(CapitalizeWords(Split(Lower(s), ' ')), ' ')
  }

  /** Character-by-character reading of title casing, after a space or at the start. */
  function TitleFrom(l: string, atStart: bool): (r: string)
    ensures |r| == |l|
  {
    if l == [] then []
    else [if atStart then UpperChar(l[0]) else l[0]] + TitleFrom(l[1..], l[0] == ' ')
  }

  lemma {:induction false} TitleFromAt(l: string, atStart: bool, i: int)
    requires 0 <= i < |l|
    ensures TitleFrom(l, atStart)[i]
         == if (if i == 0 then atStart else l[i - 1] == ' ') then UpperChar(l[i]) else l[i]
  {
    if i > 0 {
      TitleFromAt(l[1..], l[0] == ' ', i - 1);
    }
  }

  /** The split/map/join pipeline equals the character-by-character reading. */
  lemma {:induction false} TitleWords(l: string, atStart: bool)
    ensures var parts := Split(l, ' ');
      Join([if atStart then CapitalizeWord(parts[0]) else parts[0]] + CapitalizeWords(parts[1..]), ' ')
      == TitleFrom(l, atStart)
  {
    if l != [] {
      var rest := Split(l[1..], ' ');
      TitleWords(l[1..], true);
      TitleWords(l[1..], false);
      if l[0] == ' ' {
        var parts := [[]] + rest;
        assert Split(l, ' ') == parts;
        assert parts[1..] == rest;
        var ws := [[]] + CapitalizeWords(rest);
        assert CapitalizeWords(rest) == [CapitalizeWord(rest[0])] + CapitalizeWords(rest[1..]);
        assert ws[1..] == CapitalizeWords(rest);
        assert Join(ws, ' ') == [] + [' '] + Join(CapitalizeWords(rest), ' ');
      } else {
        var c := l[0];
        var parts := [[c] + rest[0]] + rest[1..];
        assert Split(l, ' ') == parts;
        assert parts[1..] == rest[1..];
        var x := [if atStart then UpperChar(c) else c];
        assert (if atStart then CapitalizeWord(parts[0]) else parts[0]) == x + rest[0];
        JoinConsFirst(x, rest[0], CapitalizeWords(rest[1..]), ' ');
      }
    }
  }

  /**
   * Title casing upper-cases every character that starts the string or
   * follows a space and lower-cases every other character, keeping the length.
   */
  function TitleCharAt(s: string, i: int): char
    requires 0 <= i < |s|
  {
    if i == 0 || s[i - 1] == ' ' then UpperChar(s[i]) else LowerChar(s[i])
  }

  lemma TitleCaseChars(s: string)
    ensures |TitleCase(s)| == |s|
    ensures forall i :: 0 <= i < |s| ==> TitleCase(s)[i] == TitleCharAt(s, i)
  {
    var l := Lower(s);
    TitleWords(l, true);
    var parts := Split(l, ' ');
    assert CapitalizeWords(parts) == [CapitalizeWord(parts[0])] + CapitalizeWords(parts[1..]);
    forall i | 0 <= i < |s|
      ensures TitleCase(s)[i] == TitleCharAt(s, i)
    {
      TitleFromAt(l, true, i);
      assert i > 0 ==> (l[i - 1] == ' ' <==> s[i - 1] == ' ');
      assert UpperChar(l[i]) == UpperChar(s[i]);
    }
  }
}
