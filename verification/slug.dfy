/**
 * URL slugs of mega projects (src/megaProyectos.js): the name, or
 * "sin-nombre" when it is missing, lower-cased, with every run of characters
 * outside [a-z0-9] replaced by one "-", and leading and trailing "-" removed.
 */
module Slug {
  import opened Wrappers
  import opened Text

  predicate IsSlugChar(c: char) {
    'a' <= c <= 'z' || '0' <= c <= '9'
  }

  /** The letters and digits of a string, in order: what a slug keeps of its source. */
  function Alnum(s: string): string {
    if s == [] then [] else (if IsSlugChar(s[0]) then [s[0]] else []) + Alnum(s[1..])
  }

  lemma {:induction false} AlnumAppend(a: string, b: string)
    ensures Alnum(a + b) == Alnum(a) + Alnum(b)
  {
    if a == [] {
      assert a + b == b;
    } else {
      assert (a + b)[1..] == a[1..] + b;
      AlnumAppend(a[1..], b);
    }
  }

  lemma {:induction false} AlnumNone(s: string)
    requires forall i :: 0 <= i < |s| ==> !IsSlugChar(s[i])
    ensures Alnum(s) == []
  {
    if s != [] {
      AlnumNone(s[1..]);
    }
  }

  /** A well-formed slug: only [a-z0-9-], no "--", and no "-" at either end. */
  predicate WellFormed(t: string) {
    && (forall i :: 0 <= i < |t| ==> IsSlugChar(t[i]) || t[i] == '-')
    && (forall i :: 0 <= i < |t| - 1 ==> t[i] == '-' ==> t[i + 1] != '-')
    && (t == [] || (t[0] != '-' && t[|t| - 1] != '-'))
  }

  /** Chars in [a-z0-9-] with no "--", ends unconstrained. */
  predicate Dashed(t: string) {
    && (forall i :: 0 <= i < |t| ==> IsSlugChar(t[i]) || t[i] == '-')
    && (forall i :: 0 <= i < |t| - 1 ==> t[i] == '-' ==> t[i + 1] != '-')
  }

  /** Drops the leading run of characters outside [a-z0-9]. */
  function DropRun(s: string): (r: string)
    ensures |r| <= |s|
    ensures r == s[|s| - |r|..]
    ensures r == [] || IsSlugChar(r[0])
    ensures forall i :: 0 <= i < |s| - |r| ==> !IsSlugChar(s[i])
  {
    if s != [] && !IsSlugChar(s[0]) then
      var r := DropRun(s[1..]);
      assert s[1..][|s| - 1 - |r|..] == s[|s| - |r|..];
      assert forall i :: 1 <= i < |s| - |r| ==> s[i] == s[1..][i - 1];
      r
    else s
  }

  /** `.replace(/[^a-z0-9]+/g, "-")` */
  function Collapse(s: string): (r: string)
    ensures r == [] <==> s == []
    ensures s != [] ==> r[0] == if IsSlugChar(s[0]) then s[0] else '-'
    decreases |s|
  {
    if s == [] then []
    else if IsSlugChar(s[0]) then [s[0]] + Collapse(s[1..])
    else "-" + Collapse(DropRun(s[1..]))
  }

  /** Collapsing leaves only [a-z0-9-], never two dashes in a row, and every letter and digit. */
  lemma {:induction false} CollapseShape(s: string)
    ensures Dashed(Collapse(s))
    ensures Alnum(Collapse(s)) == Alnum(s)
    decreases |s|
  {
    if s != [] {
      if IsSlugChar(s[0]) {
        CollapseShape(s[1..]);
        assert Collapse(s) == [s[0]] + Collapse(s[1..]);
        AlnumAppend([s[0]], Collapse(s[1..]));
      } else {
        var d := DropRun(s[1..]);
        CollapseShape(d);
        assert Collapse(s) == "-" + Collapse(d);
        AlnumAppend("-", Collapse(d));
        var k := |s[1..]| - |d|;
        assert s[1..] == s[1..][..k] + d;
        AlnumAppend(s[1..][..k], d);
        AlnumNone(s[1..][..k]);
      }
    }
  }

  function DropLeadingDashes(s: string): (r: string)
    ensures |r| <= |s|
    ensures r == s[|s| - |r|..]
    ensures r == [] || r[0] != '-'
    ensures forall i :: 0 <= i < |s| - |r| ==> s[i] == '-'
  {
    if s != [] && s[0] == '-' then
      var r := DropLeadingDashes(s[1..]);
      assert s[1..][|s| - 1 - |r|..] == s[|s| - |r|..];
      assert forall i :: 1 <= i < |s| ==> s[1..][i - 1] == s[i];
      r
    else s
  }

  function DropTrailingDashes(s: string): (r: string)
    ensures |r| <= |s|
    ensures r == s[..|r|]
    ensures r == [] || r[|r| - 1] != '-'
    ensures forall i :: |r| <= i < |s| ==> s[i] == '-'
  {
    if s != [] && s[|s| - 1] == '-' then DropTrailingDashes(s[..|s| - 1]) else s
  }

  /** `.replace(/^-+|-+$/g, "")` */
  function StripDashes(s: string): string {
    DropTrailingDashes(DropLeadingDashes(s))
  }

  /** Every slice of a dashed string is dashed. */
  lemma DashedSlice(s: string, a: nat, b: nat)
    requires Dashed(s) && a <= b <= |s|
    ensures Dashed(s[a..b])
  {
    var t := s[a..b];
    assert forall i :: 0 <= i < |t| ==> t[i] == s[a + i];
  }

  lemma {:induction false} DropLeadingShape(s: string)
    requires Dashed(s)
    ensures Dashed(DropLeadingDashes(s))
    ensures Alnum(DropLeadingDashes(s)) == Alnum(s)
  {
    if s != [] && s[0] == '-' {
      DashedSlice(s, 1, |s|);
      DropLeadingShape(s[1..]);
      assert Alnum(s) == Alnum(s[1..]);
    }
  }

  lemma DropTrailingShape(t: string)
    requires Dashed(t)
    ensures Dashed(DropTrailingDashes(t))
    ensures Alnum(DropTrailingDashes(t)) == Alnum(t)
  {
    var r := DropTrailingDashes(t);
    assert t == r + t[|r|..];
    AlnumAppend(r, t[|r|..]);
    AlnumNone(t[|r|..]);
    DashedSlice(t, 0, |r|);
  }

  /** Stripping a dashed string gives a well-formed slug with the same letters and digits. */
  lemma StripShape(s: string)
    requires Dashed(s)
    ensures WellFormed(StripDashes(s))
    ensures Alnum(StripDashes(s)) == Alnum(s)
  {
    var t := DropLeadingDashes(s);
    DropLeadingShape(s);
    DropTrailingShape(t);
    var r := DropTrailingDashes(t);
    if r != [] {
      assert r[0] == t[0];
    }
  }

  /** The slug of a piece of text: lower case, dash runs collapsed, dashes stripped. */
  function Slugify(s: string): string {
    StripDashes(Collapse(Lower(s)))
  }

  /** The slug `insertMegaProjectIntoPostgres` stores: the name, or "sin-nombre" when it is missing. */
  function MegaSlug(name: Option<string>): string {
    Slugify(OrElse(name, "sin-nombre"))
  }

  /**
   * Every slug is well formed and keeps exactly the letters and digits of
   * the lower-cased source, in order; so it is empty exactly when the source
   * has none.
   */
  lemma SlugifyShape(s: string)
    ensures WellFormed(Slugify(s))
    ensures Alnum(Slugify(s)) == Alnum(Lower(s))
    ensures Slugify(s) == [] <==> Alnum(Lower(s)) == []
  {
    var c := Collapse(Lower(s));
    CollapseShape(Lower(s));
    StripShape(c);
    WellFormedAlnum(StripDashes(c));
  }

  /** A well-formed slug is empty exactly when it has no letter or digit. */
  lemma WellFormedAlnum(t: string)
    requires WellFormed(t)
    ensures t == [] <==> Alnum(t) == []
  {
    if t != [] {
      assert IsSlugChar(t[0]);
      assert t == [t[0]] + t[1..];
      AlnumAppend([t[0]], t[1..]);
    }
  }

  lemma {:induction false} CollapseDashed(t: string)
    requires Dashed(t)
    ensures Collapse(t) == t
    decreases |t|
  {
    if t != [] {
      assert Dashed(t[1..]);
      CollapseDashed(t[1..]);
      if !IsSlugChar(t[0]) {
        assert DropRun(t[1..]) == t[1..];
      }
    }
  }

  /** A well-formed slug is its own slug. */
  lemma SlugifyFixpoint(t: string)
    requires WellFormed(t)
    ensures Slugify(t) == t
  {
    assert Lower(t) == t;
    CollapseDashed(t);
  }

  /** Slugging twice is slugging once. */
  lemma SlugifyIdempotent(s: string)
    ensures Slugify(Slugify(s)) == Slugify(s)
  {
    SlugifyShape(s);
    SlugifyFixpoint(Slugify(s));
  }

  /** A missing name gives the default slug "sin-nombre". */
  lemma MegaSlugDefault(name: Option<string>)
    requires !Present(name)
    ensures MegaSlug(name) == "sin-nombre"
  {
    var t := "sin-nombre";
    assert WellFormed(t);
    SlugifyFixpoint(t);
  }
}
