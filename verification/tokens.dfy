/** The input side of the `execute!` expansion: the macro's token trees,
    split at top-level commas into one segment per closure. */
module Tokens {

  /** A top-level token tree of the macro input. A delimited group such as
      `f(a, b)` is one `Other` tree, so only commas between closures are
      `Comma`. */
  datatype Token = Comma | Other(text: string)

  function CommaCount(tts: seq<Token>): nat {
    if |tts| == 0 then 0 else (if tts[0] == Comma then 1 else 0) + CommaCount(tts[1..])
  }

  /** The token trees that are not commas, in order. */
  function NonCommas(tts: seq<Token>): seq<Token> {
    if |tts| == 0 then []
    else if tts[0] == Comma then NonCommas(tts[1..])
    else [tts[0]] + NonCommas(tts[1..])
  }

  /** Slice splitting on commas: the runs of tokens between commas, including
      the empty runs before a leading comma, between two commas and after a
      trailing comma. An empty input is one empty run. */
  function Split(tts: seq<Token>): (segs: seq<seq<Token>>)
    ensures |segs| == CommaCount(tts) + 1
    ensures forall i :: 0 <= i < |segs| ==> Comma !in segs[i]
  {
    if |tts| == 0 then [[]]
    else
      var rest := Split(tts[1..]);
      if tts[0] == Comma then [[]] + rest
      else [[tts[0]] + rest[0]] + rest[1..]
  }

  /** Rejoins segments with a comma between each two. */
  function JoinCommas(segs: seq<seq<Token>>): seq<Token>
    requires |segs| >= 1
  {
    if |segs| == 1 then segs[0] else segs[0] + [Comma] + JoinCommas(segs[1..])
  }

  /** Splitting loses nothing: rejoining the segments gives the input back. */
  lemma {:induction false} JoinSplit(tts: seq<Token>)
    ensures JoinCommas(Split(tts)) == tts
  {
    if |tts| > 0 {
      var rest := Split(tts[1..]);
      JoinSplit(tts[1..]);
      if tts[0] != Comma && |rest| > 1 {
        assert rest[1..][0] == rest[1];
      }
    }
  }

  /** And splitting comma-free segments joined by commas recovers them. */
  lemma {:induction false} SplitJoin(segs: seq<seq<Token>>)
    requires |segs| >= 1
    requires forall i :: 0 <= i < |segs| ==> Comma !in segs[i]
    ensures Split(JoinCommas(segs)) == segs
  {
    if |segs| == 1 {
      SplitCommaFree(segs[0]);
    } else {
      SplitJoin(segs[1..]);
      SplitPrefix(segs[0], JoinCommas(segs[1..]));
      assert [segs[0]] + segs[1..] == segs;
    }
  }

  /** A comma-free run is a single segment. */
  lemma {:induction false} SplitCommaFree(s: seq<Token>)
    requires Comma !in s
    ensures Split(s) == [s]
  {
    if |s| > 0 {
      SplitCommaFree(s[1..]);
      assert [s[0]] + s[1..] == s;
    }
  }

  /** A comma-free run followed by a comma is split off as the first segment. */
  lemma {:induction false} SplitPrefix(s: seq<Token>, tail: seq<Token>)
    requires Comma !in s
    ensures Split(s + [Comma] + tail) == [s] + Split(tail)
  {
    if |s| == 0 {
      assert s + [Comma] + tail == [Comma] + tail;
    } else {
      assert (s + [Comma] + tail)[1..] == s[1..] + [Comma] + tail;
      SplitPrefix(s[1..], tail);
      assert [s[0]] + s[1..] == s;
    }
  }

  /** The non-empty segments, in order. */
  function NonEmpty(segs: seq<seq<Token>>): (kept: seq<seq<Token>>)
    ensures |kept| <= |segs|
    ensures forall s :: s in kept ==> s in segs && s != []
  {
    if |segs| == 0 then []
    else if segs[0] == [] then NonEmpty(segs[1..])
    else [segs[0]] + NonEmpty(segs[1..])
  }

  /** The closures of an `execute!` invocation: the comma-separated segments
      with the empty ones dropped, so a trailing comma adds no closure. */
  function Segments(tts: seq<Token>): (jobs: seq<seq<Token>>)
    ensures |jobs| <= CommaCount(tts) + 1
    ensures forall i :: 0 <= i < |jobs| ==> |jobs[i]| > 0 && Comma !in jobs[i]
  {
    var segs := Split(tts);
    var jobs := NonEmpty(segs);
    assert forall i :: 0 <= i < |jobs| ==> jobs[i] in segs;
    jobs
  }

  function Flatten(segs: seq<seq<Token>>): seq<Token> {
    if |segs| == 0 then [] else segs[0] + Flatten(segs[1..])
  }

  /** The segments hold every non-comma token tree once, in source order. */
  lemma SegmentsKeepOrder(tts: seq<Token>)
    ensures Flatten(Segments(tts)) == NonCommas(tts)
  {
    FlattenNonEmpty(Split(tts));
    FlattenSplit(tts);
  }

  lemma {:induction false} FlattenNonEmpty(segs: seq<seq<Token>>)
    ensures Flatten(NonEmpty(segs)) == Flatten(segs)
  {
    if |segs| > 0 {
      FlattenNonEmpty(segs[1..]);
    }
  }

  lemma {:induction false} FlattenSplit(tts: seq<Token>)
    ensures Flatten(Split(tts)) == NonCommas(tts)
  {
    if |tts| > 0 {
      var rest := Split(tts[1..]);
      FlattenSplit(tts[1..]);
      if tts[0] != Comma {
        assert Flatten(rest) == rest[0] + Flatten(rest[1..]);
      }
    }
  }

  /** The closures are exactly the comma-separated segments: joining any
      non-empty, comma-free segments with commas, with or without a trailing
      comma, and segmenting the result gives those segments back. */
  lemma SegmentsOfJoin(segs: seq<seq<Token>>)
    requires |segs| >= 1
    requires forall i :: 0 <= i < |segs| ==> |segs[i]| > 0 && Comma !in segs[i]
    ensures Segments(JoinCommas(segs)) == segs
    ensures Segments(JoinCommas(segs) + [Comma]) == segs
  {
    SplitJoin(segs);
    NonEmptyKeeps(segs);
    var padded := segs + [[]];
    assert forall i :: 0 <= i < |padded| ==> Comma !in padded[i] by {
      forall i | 0 <= i < |padded| ensures Comma !in padded[i] {
        if i < |segs| { assert padded[i] == segs[i]; }
      }
    }
    JoinAppendEmpty(segs);
    SplitJoin(padded);
    NonEmptyDropLast(segs);
  }

  /** Whatever the segments between the commas, empty ones included, the
      closures are those segments with the empty ones dropped: `a,,b` gives
      two closures and `,a` gives one. */
  lemma SegmentsOfAnyJoin(segs: seq<seq<Token>>)
    requires |segs| >= 1
    requires forall i :: 0 <= i < |segs| ==> Comma !in segs[i]
    ensures Segments(JoinCommas(segs)) == NonEmpty(segs)
  {
    SplitJoin(segs);
  }

  /** Dropping empty segments distributes over concatenation. */
  lemma {:induction false} NonEmptyAppend(a: seq<seq<Token>>, b: seq<seq<Token>>)
    ensures NonEmpty(a + b) == NonEmpty(a) + NonEmpty(b)
  {
    if |a| > 0 {
      assert (a + b)[1..] == a[1..] + b;
      NonEmptyAppend(a[1..], b);
    } else {
      assert a + b == b;
    }
  }

  /** A single segment survives exactly when it is non-empty. */
  lemma NonEmptySingle(s: seq<Token>)
    ensures NonEmpty([s]) == if s == [] then [] else [s]
  {
    assert [s][1..] == [];
  }

  /** Dropping empty segments keeps a list that has none. */
  lemma {:induction false} NonEmptyKeeps(segs: seq<seq<Token>>)
    requires forall i :: 0 <= i < |segs| ==> |segs[i]| > 0
    ensures NonEmpty(segs) == segs
  {
    if |segs| > 0 {
      NonEmptyKeeps(segs[1..]);
      assert [segs[0]] + segs[1..] == segs;
    }
  }

  /** A trailing comma is an extra empty segment at the end. */
  lemma {:induction false} JoinAppendEmpty(segs: seq<seq<Token>>)
    requires |segs| >= 1
    ensures JoinCommas(segs + [[]]) == JoinCommas(segs) + [Comma]
  {
    var padded := segs + [[]];
    assert padded[1..] == segs[1..] + [[]];
    if |segs| == 1 {
      assert padded[1..] == [[]];
    } else {
      JoinAppendEmpty(segs[1..]);
    }
  }

  /** An empty last segment is dropped. */
  lemma {:induction false} NonEmptyDropLast(segs: seq<seq<Token>>)
    ensures NonEmpty(segs + [[]]) == NonEmpty(segs)
  {
    var padded := segs + [[]];
    if |segs| == 0 {
      assert padded[1..] == [];
    } else {
      assert padded[1..] == segs[1..] + [[]];
      NonEmptyDropLast(segs[1..]);
    }
  }

  /** `a, b,` makes two closures; an empty invocation and a lone comma make
      none. */
  lemma SegmentExamples(a: Token, b: Token)
    requires a != Comma && b != Comma
    ensures Segments([a, Comma, b, Comma]) == [[a], [b]]
    ensures Segments([a, Comma, b]) == [[a], [b]]
    ensures Segments([]) == []
    ensures Segments([Comma]) == []
  {
    assert Split([]) == [[]];
    assert Split([Comma]) == [[], []] by {
      assert [Comma][1..] == [];
    }
    SplitCommaFree([b]);
    assert Split([b, Comma]) == [[b], []] by {
      assert [b, Comma][1..] == [Comma];
    }
    assert Split([Comma, b, Comma]) == [[], [b], []] by {
      assert [Comma, b, Comma][1..] == [b, Comma];
    }
    assert Split([Comma, b]) == [[], [b]] by {
      assert [Comma, b][1..] == [b];
    }
    SplitPrefix([a], [b, Comma]);
    assert [a] + [Comma] + [b, Comma] == [a, Comma, b, Comma];
    SplitPrefix([a], [b]);
    assert [a] + [Comma] + [b] == [a, Comma, b];
    assert NonEmpty([[b], []]) == [[b]] by {
      assert [[b], []][1..] == [[]];
      var none: seq<seq<Token>> := [[]];
      assert NonEmpty(none) == [] by {
        assert none[1..] == [];
      }
    }
    assert NonEmpty([[a], [b], []]) == [[a], [b]] by {
      assert [[a], [b], []][1..] == [[b], []];
    }
    assert NonEmpty([[a], [b]]) == [[a], [b]] by {
      assert [[a], [b]][1..] == [[b]];
      assert [[b]][1..] == [];
    }
    var empties: seq<seq<Token>> := [[], []];
    assert NonEmpty(empties) == [] by {
      assert empties[1..] == [[]];
      assert empties[1..][1..] == [];
    }
  }
}
