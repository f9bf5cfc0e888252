/** What `slugify` computes, independently of how: the maximal runs of
    letters and digits of the input, lower-cased, joined by single dashes. The
    lemmas show each stage of `Slug.Slugify` keeps those runs, and derive the
    order-preservation, empty-result and idempotence properties. */
module SlugProofs {
  import opened Ascii
  import opened Slug

  /** The dash-free runs of `t`, in order (splitting on '-' and dropping empty pieces). */
  function Words(t: string): (ws: seq<string>)
    ensures forall k :: 0 <= k < |ws| ==> |ws[k]| > 0 && '-' !in ws[k]
    ensures |t| > 0 && t[0] != '-' ==> |ws| > 0 && ws[0][0] == t[0]
    decreases |t|
  {
    if |t| == 0 then []
    else
      var rest := Words(t[1..]);
      if t[0] == '-' then rest
      else if |t| > 1 && t[1] != '-' then [[t[0]] + rest[0]] + rest[1..]
      else [[t[0]]] + rest
  }

  /** The runs joined by single dashes. */
  function JoinDash(ws: seq<string>): string {
    if |ws| == 0 then ""
    else if |ws| == 1 then ws[0]
    else ws[0] + "-" + JoinDash(ws[1..])
  }

  /** The letters and digits of the input, lower-cased, in order. */
  function LowerAlnums(s: string): string {
    if |s| == 0 then ""
    else (if IsAlnum(s[0]) then [ToLower(s[0])] else []) + LowerAlnums(s[1..])
  }

  /** The text with every '-' deleted. */
  function RemoveDashes(t: string): string {
    if |t| == 0 then ""
    else (if t[0] == '-' then [] else [t[0]]) + RemoveDashes(t[1..])
  }

  function Concat(ws: seq<string>): string {
    if |ws| == 0 then "" else ws[0] + Concat(ws[1..])
  }

  /** A text with no "--" and no '-' at either end. */
  predicate Clean(t: string) {
    !HasDoubleDash(t) && (|t| > 0 ==> t[0] != '-' && t[|t| - 1] != '-')
  }

  // ---------------------------------------------------------------------------
  // Every stage keeps the runs
  // ---------------------------------------------------------------------------

  lemma WordsCons(c: char, y: string)
    ensures ([c] + y)[1..] == y
    ensures Words([c] + y) ==
      if c == '-' then Words(y)
      else if |y| > 0 && y[0] != '-' then [[c] + Words(y)[0]] + Words(y)[1..]
      else [[c]] + Words(y)
  {
    assert ([c] + y)[1..] == y;
  }

  lemma {:induction false} WordsReplaceDoubleDash(t: string)
    ensures Words(ReplaceDoubleDash(t)) == Words(t)
    decreases |t|
  {
    if |t| >= 2 && t[0] == '-' && t[1] == '-' {
      WordsReplaceDoubleDash(t[2..]);
      WordsCons('-', ReplaceDoubleDash(t[2..]));
      assert t[1..][1..] == t[2..];
    } else if |t| > 0 {
      WordsReplaceDoubleDash(t[1..]);
      WordsCons(t[0], ReplaceDoubleDash(t[1..]));
    }
  }

  /** The collapse loop of lines 28-30 keeps the runs. */
  lemma {:induction false} WordsCollapse(t: string)
    ensures Words(Collapse(t)) == Words(t)
    decreases |t|
  {
    if HasDoubleDash(t) {
      WordsReplaceDoubleDash(t);
      WordsCollapse(ReplaceDoubleDash(t));
    }
  }

  lemma {:induction false} WordsDashSuffix(u: string)
    ensures Words(u + "-") == Words(u)
    decreases |u|
  {
    if |u| > 0 {
      var v := u[1..];
      assert u + "-" == [u[0]] + (v + "-");
      assert u == [u[0]] + v;
      WordsDashSuffix(v);
      WordsCons(u[0], v + "-");
      WordsCons(u[0], v);
      if |v| == 0 {
        assert Words("-") == Words("-"[1..]);
      }
    }
  }

  lemma {:induction false} WordsTrimStart(t: string)
    ensures Words(TrimStart(t)) == Words(t)
    decreases |t|
  {
    if |t| > 0 && t[0] == '-' {
      WordsTrimStart(t[1..]);
    }
  }

  lemma {:induction false} WordsTrimEnd(t: string)
    ensures Words(TrimEnd(t)) == Words(t)
    decreases |t|
  {
    if |t| > 0 && t[|t| - 1] == '-' {
      var u := t[..|t| - 1];
      WordsTrimEnd(u);
      assert t == u + "-";
      WordsDashSuffix(u);
    }
  }

  /** Trimming (line 31) keeps the runs. */
  lemma WordsTrimDashes(t: string)
    ensures Words(TrimDashes(t)) == Words(t)
  {
    WordsTrimStart(t);
    WordsTrimEnd(TrimStart(t));
  }

  // ---------------------------------------------------------------------------
  // A clean text is its runs joined by dashes
  // ---------------------------------------------------------------------------

  lemma JoinDashPrepend(c: char, ws: seq<string>)
    requires |ws| > 0
    ensures JoinDash([[c] + ws[0]] + ws[1..]) == [c] + JoinDash(ws)
  {
    var ws' := [[c] + ws[0]] + ws[1..];
    if |ws| > 1 {
      assert ws'[1..] == ws[1..];
      var rest := JoinDash(ws[1..]);
      assert JoinDash(ws') == ([c] + ws[0]) + "-" + rest;
      assert JoinDash(ws) == ws[0] + "-" + rest;
      ConsAssoc(c, ws[0], "-");
      ConsAssoc(c, ws[0] + "-", rest);
    }
  }

  lemma ConsAssoc(c: char, a: string, b: string)
    ensures ([c] + a) + b == [c] + (a + b)
  {
  }

  lemma NoDoubleDashTail(t: string)
    requires !HasDoubleDash(t) && |t| >= 1
    ensures !HasDoubleDash(t[1..])
  {
    assert forall i :: 0 <= i < |t| - 1 ==> t[1..][i] == t[i + 1];
  }

  lemma CleanTail(t: string)
    requires Clean(t) && |t| >= 2
    ensures !HasDoubleDash(t[1..])
    ensures t[1..][|t| - 2] != '-'
  {
    NoDoubleDashTail(t);
  }

  lemma {:induction false} JoinWords(t: string)
    requires Clean(t)
    ensures JoinDash(Words(t)) == t
    decreases |t|
  {
    if |t| == 1 {
      assert Words(t) == [[t[0]]] + Words(t[1..]);
      assert t == [t[0]];
    } else if |t| > 1 {
      var c, u := t[0], t[1..];
      CleanTail(t);
      if u[0] != '-' {
        JoinWords(u);
        JoinDashPrepend(c, Words(u));
        assert t == [c] + u;
      } else {
        var v := u[1..];
        assert |v| > 0 && v[0] != '-' by {
          assert t[1] == '-' && |t| > 2;
          assert !(t[1] == '-' && t[2] == '-');
        }
        assert Clean(v) by {
          NoDoubleDashTail(u);
          assert v[|v| - 1] == t[|t| - 1];
        }
        JoinWords(v);
        assert Words(u) == Words(v);
        var ws := [[c]] + Words(v);
        assert ws[1..] == Words(v);
        assert JoinDash(ws) == [c] + "-" + v;
        assert t == [c] + "-" + v;
      }
    }
  }

  /** `slugify` joins, with single dashes, the maximal runs of letters and
      digits of its input, lower-cased: the reference definition it meets. */
  lemma SlugifyIsJoinedRuns(s: string)
    requires IsAsciiText(s)
    ensures Slugify(s) == JoinDash(Words(MapChars(s)))
  {
    var collapsed := Collapse(MapChars(s));
    WordsTrimDashes(collapsed);
    WordsCollapse(MapChars(s));
    JoinWords(Slugify(s));
  }

  // ---------------------------------------------------------------------------
  // Order preservation and the empty result
  // ---------------------------------------------------------------------------

  lemma {:induction false} RemoveDashesConcat(a: string, b: string)
    ensures RemoveDashes(a + b) == RemoveDashes(a) + RemoveDashes(b)
    decreases |a|
  {
    if |a| > 0 {
      assert (a + b)[0] == a[0];
      assert (a + b)[1..] == a[1..] + b;
      RemoveDashesConcat(a[1..], b);
    } else {
      assert a + b == b;
    }
  }

  lemma {:induction false} RemoveDashesOfDashFree(w: string)
    requires '-' !in w
    ensures RemoveDashes(w) == w
    decreases |w|
  {
    if |w| > 0 {
      assert w[0] in w;
      assert forall c :: c in w[1..] ==> c in w;
      RemoveDashesOfDashFree(w[1..]);
    }
  }

  lemma {:induction false} RemoveDashesJoin(ws: seq<string>)
    requires forall k :: 0 <= k < |ws| ==> '-' !in ws[k]
    ensures RemoveDashes(JoinDash(ws)) == Concat(ws)
    decreases |ws|
  {
    if |ws| == 1 {
      RemoveDashesOfDashFree(ws[0]);
      assert Concat(ws) == ws[0] + Concat([]);
    } else if |ws| > 1 {
      RemoveDashesJoin(ws[1..]);
      RemoveDashesConcat(ws[0] + "-", JoinDash(ws[1..]));
      RemoveDashesConcat(ws[0], "-");
      RemoveDashesOfDashFree(ws[0]);
    }
  }

  lemma {:induction false} ConcatWords(t: string)
    ensures Concat(Words(t)) == RemoveDashes(t)
    decreases |t|
  {
    if |t| > 0 {
      ConcatWords(t[1..]);
      var rest := Words(t[1..]);
      if t[0] != '-' && |t| > 1 && t[1] != '-' {
        var ws := [[t[0]] + rest[0]] + rest[1..];
        assert ws[1..] == rest[1..];
        assert Concat(rest) == rest[0] + Concat(rest[1..]);
      } else if t[0] != '-' {
        assert ([[t[0]]] + rest)[1..] == rest;
      }
    }
  }

  lemma {:induction false} RemoveDashesMapChars(s: string)
    ensures RemoveDashes(MapChars(s)) == LowerAlnums(s)
    decreases |s|
  {
    if |s| > 0 {
      RemoveDashesMapChars(s[1..]);
      assert MapChars(s)[1..] == MapChars(s[1..]);
    }
  }

  /** The letters and digits of the input appear in the slug lower-cased and
      in their original order, and nothing but '-' is added. */
  lemma SlugifyKeepsAlnumsInOrder(s: string)
    requires IsAsciiText(s)
    ensures RemoveDashes(Slugify(s)) == LowerAlnums(s)
  {
    SlugifyIsJoinedRuns(s);
    var ws := Words(MapChars(s));
    RemoveDashesJoin(ws);
    ConcatWords(MapChars(s));
    RemoveDashesMapChars(s);
  }

  lemma NonDashHeadSurvives(t: string)
    requires |t| > 0 && t[0] != '-'
    ensures |RemoveDashes(t)| > 0
  {
  }

  /** The slug is empty exactly when the input has no letter or digit. */
  lemma SlugifyEmptyIff(s: string)
    requires IsAsciiText(s)
    ensures Slugify(s) == "" <==> LowerAlnums(s) == ""
  {
    SlugifyKeepsAlnumsInOrder(s);
    var slug := Slugify(s);
    if |slug| > 0 {
      NonDashHeadSurvives(slug);
    }
  }

  // ---------------------------------------------------------------------------
  // Idempotence
  // ---------------------------------------------------------------------------

  lemma {:induction false} MapCharsFixesSlugText(t: string)
    requires AllSlugChars(t)
    ensures MapChars(t) == t
    decreases |t|
  {
    if |t| > 0 {
      assert IsSlugChar(t[0]);
      MapCharsFixesSlugText(t[1..]);
      assert t == [t[0]] + t[1..];
    }
  }

  lemma SlugIsAscii(t: string)
    requires AllSlugChars(t)
    ensures IsAsciiText(t)
  {
    forall i | 0 <= i < |t| ensures t[i] as int < 128 {
      assert IsSlugChar(t[i]);
    }
  }

  /** Slugifying a slug changes nothing. */
  lemma SlugifyIdempotent(s: string)
    requires IsAsciiText(s)
    ensures IsAsciiText(Slugify(s))
    ensures Slugify(Slugify(s)) == Slugify(s)
  {
    var slug := Slugify(s);
    SlugIsAscii(slug);
    MapCharsFixesSlugText(slug);
    assert Collapse(slug) == slug;
    assert TrimStart(slug) == slug;
    assert TrimEnd(slug) == slug;
  }

}
