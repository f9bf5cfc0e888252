/** `slugify` of `src/commands/create.rs` (lines 21-32): lower-case the text,
    turn every non-alphanumeric character into '-', collapse runs of '-' by
    repeating `replace("--", "-")` while "--" occurs, and trim '-' from both
    ends. Letters and digits are ASCII here (see `Ascii`). */
module Slug {
  import opened Ascii

  predicate IsAsciiText(s: string) {
    forall i :: 0 <= i < |s| ==> s[i] as int < 128
  }

  /** The characters a slug is made of. */
  predicate IsSlugChar(c: char) {
    IsLower(c) || IsDigit(c) || c == '-'
  }

  predicate AllSlugChars(t: string) {
    forall i :: 0 <= i < |t| ==> IsSlugChar(t[i])
  }

  /** Lines 23-25 for one character: lower-case it, then keep it when
      alphanumeric and replace it by '-' otherwise. */
  function SlugChar(c: char): (d: char)
    ensures IsSlugChar(d)
    ensures d != '-' <==> IsAlnum(c)
    ensures IsAlnum(c) ==> d == ToLower(c)
  {
    var l := ToLower(c);
    if IsAlnum(l) then l else '-'
  }

  /** Lines 22-26: the character mapping over the whole text. */
  function MapChars(s: string): (t: string)
    ensures |t| == |s|
    ensures AllSlugChars(t)
  {
    if |s| == 0 then [] else [SlugChar(s[0])] + MapChars(s[1..])
  }

  /** `contains("--")`. */
  predicate HasDoubleDash(t: string) {
    exists i :: 0 <= i < |t| - 1 && t[i] == '-' && t[i + 1] == '-'
  }

  /** One `replace("--", "-")`: non-overlapping occurrences, scanned left to
      right, each become one '-'. It strictly shortens any text containing "--",
      which is why the loop of lines 28-30 terminates. */
  function ReplaceDoubleDash(t: string): (r: string)
    ensures |r| <= |t|
    ensures HasDoubleDash(t) ==> |r| < |t|
    ensures |t| > 0 ==> |r| > 0 && r[0] == t[0]
    ensures forall c :: c in r ==> c in t
    decreases |t|
  {
    if |t| >= 2 && t[0] == '-' && t[1] == '-' then
      "-" + ReplaceDoubleDash(t[2..])
    else if |t| == 0 then
      ""
    else
      var rest := ReplaceDoubleDash(t[1..]);
      assert HasDoubleDash(t) ==> HasDoubleDash(t[1..]) by {
        if HasDoubleDash(t) {
          var i :| 0 <= i < |t| - 1 && t[i] == '-' && t[i + 1] == '-';
          assert i >= 1;
          assert t[1..][i - 1] == '-' && t[1..][i] == '-';
        }
      }
      [t[0]] + rest
  }

  /** The loop of lines 28-30: replace until no "--" is left. */
  function Collapse(t: string): (r: string)
    ensures !HasDoubleDash(r)
    ensures forall c :: c in r ==> c in t
    decreases |t|
  {
    if HasDoubleDash(t) then Collapse(ReplaceDoubleDash(t)) else t
  }

  /** Leading half of `trim_matches('-')`: the longest suffix not starting with '-'. */
  function TrimStart(t: string): (r: string)
    ensures |r| <= |t| && r == t[|t| - |r|..]
    ensures forall i :: 0 <= i < |t| - |r| ==> t[i] == '-'
    ensures |r| > 0 ==> r[0] != '-'
    decreases |t|
  {
    if |t| > 0 && t[0] == '-' then TrimStart(t[1..]) else t
  }

  /** Trailing half of `trim_matches('-')`: the longest prefix not ending with '-'. */
  function TrimEnd(t: string): (r: string)
    ensures |r| <= |t| && r == t[..|r|]
    ensures forall i :: |r| <= i < |t| ==> t[i] == '-'
    ensures |r| > 0 ==> r[|r| - 1] != '-'
    decreases |t|
  {
    if |t| > 0 && t[|t| - 1] == '-' then TrimEnd(t[..|t| - 1]) else t
  }

  /** `t` is `i` dashes, then `r`, then nothing but dashes. */
  predicate DashFramed(t: string, r: string, i: nat) {
    && i + |r| <= |t|
    && r == t[i..i + |r|]
    && (forall k :: 0 <= k < i ==> t[k] == '-')
    && (forall k :: i + |r| <= k < |t| ==> t[k] == '-')
  }

  /** `trim_matches('-')` (line 31): `t` is some dashes, the result, and some
      more dashes, and the result neither starts nor ends with '-'. */
  function TrimDashes(t: string): (r: string)
    ensures exists i :: DashFramed(t, r, i)
    ensures |r| > 0 ==> r[0] != '-' && r[|r| - 1] != '-'
  {
    var u := TrimStart(t);
    var r := TrimEnd(u);
    var i := |t| - |u|;
    assert r == t[i..i + |r|];
    assert DashFramed(t, r, i);
    r
  }

  /** `slugify`, for ASCII text. */
  function Slugify(s: string): (slug: string)
    requires IsAsciiText(s)
    ensures AllSlugChars(slug)
    ensures !HasDoubleDash(slug)
    ensures |slug| > 0 ==> slug[0] != '-' && slug[|slug| - 1] != '-'
  {
    var collapsed := Collapse(MapChars(s));
    var slug := TrimDashes(collapsed);
    assert AllSlugChars(collapsed) by {
      forall i | 0 <= i < |collapsed| ensures IsSlugChar(collapsed[i]) {
        assert collapsed[i] in collapsed;
      }
    }
    TrimKeepsProperties(collapsed);
    slug
  }

  /** Trimming keeps the slug alphabet and the absence of "--". */
  lemma TrimKeepsProperties(t: string)
    ensures AllSlugChars(t) ==> AllSlugChars(TrimDashes(t))
    ensures !HasDoubleDash(t) ==> !HasDoubleDash(TrimDashes(t))
  {
    var r := TrimDashes(t);
    var i :| DashFramed(t, r, i);
    SliceKeepsProperties(t, r, i);
  }

  /** A slice keeps the slug alphabet and the absence of "--". */
  lemma SliceKeepsProperties(t: string, r: string, i: nat)
    requires i + |r| <= |t| && r == t[i..i + |r|]
    ensures AllSlugChars(t) ==> AllSlugChars(r)
    ensures !HasDoubleDash(t) ==> !HasDoubleDash(r)
  {
    if HasDoubleDash(r) {
      var j :| 0 <= j < |r| - 1 && r[j] == '-' && r[j + 1] == '-';
      assert t[i + j] == '-' && t[i + j + 1] == '-';
    }
    if AllSlugChars(t) {
      forall j | 0 <= j < |r| ensures IsSlugChar(r[j]) {
        assert r[j] == t[i + j];
      }
    }
  }

}
