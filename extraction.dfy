/**
 * What both scripts extract from an LLM reply: the reply is cut at every
 * triple-backtick fence, and each segment whose stripped text starts with
 * the marker `python` yields one snippet, namely that stripped text with the
 * marker removed once and stripped again. The two loops that compute this
 * live in AutolysisNew and Autolysis; this module holds their common
 * specification and what is proved about it.
 */
module Extraction {
  import opened PyStrings

  const Fence: string := "```"
  const Marker: string := "python"

  /** `block.strip().startswith("python")`: case-sensitive. */
  predicate IsPythonSegment(segment: string) {
    StartsWith(Strip(segment), Marker)
  }

  /** `block.strip()[len("python"):].strip()`. */
  function BlockBody(segment: string): (body: string)
    requires IsPythonSegment(segment)
    ensures IsStripped(body)
  {
    StripStripped(Strip(segment)[|Marker|..]);
    Strip(Strip(segment)[|Marker|..])
  }

  /** The snippets yielded by a list of segments, in segment order. */
  function PythonBlocks(segments: seq<string>): (blocks: seq<string>)
    ensures |blocks| <= |segments|
    decreases |segments|
  {
    if |segments| == 0 then []
    else
      var last := segments[|segments| - 1];
      PythonBlocks(segments[..|segments| - 1])
        + (if IsPythonSegment(last) then [BlockBody(last)] else [])
  }

  /** The snippets of a whole reply. */
  function ReplyBlocks(reply: string): seq<string> {
    PythonBlocks(Split(reply, Fence))
  }

  predicate AllStripped(blocks: seq<string>) {
    forall k :: 0 <= k < |blocks| ==> IsStripped(blocks[k])
  }

  /** No snippet has white space at either end. */
  lemma {:induction false} PythonBlocksStripped(segments: seq<string>)
    ensures AllStripped(PythonBlocks(segments))
    decreases |segments|
  {
    if |segments| > 0 {
      var n := |segments| - 1;
      PythonBlocksStripped(segments[..n]);
      var prev := PythonBlocks(segments[..n]);
      var last := if IsPythonSegment(segments[n]) then [BlockBody(segments[n])] else [];
      assert AllStripped(last);
      assert PythonBlocks(segments) == prev + last;
      forall k | 0 <= k < |prev + last| ensures IsStripped((prev + last)[k]) {
        if k < |prev| { assert (prev + last)[k] == prev[k]; } else { assert (prev + last)[k] == last[k - |prev|]; }
      }
    }
  }

  /** The positions of the python segments, in increasing order. */
  function PythonIndices(segments: seq<string>): (idx: seq<nat>)
    ensures forall k :: 0 <= k < |idx| ==> idx[k] < |segments|
    decreases |segments|
  {
    if |segments| == 0 then []
    else
      var n := |segments| - 1;
      PythonIndices(segments[..n]) + (if IsPythonSegment(segments[n]) then [n] else [])
  }

  /** The k-th snippet is the body of the k-th python segment. */
  lemma {:induction false} PythonBlocksInOrder(segments: seq<string>)
    ensures |PythonIndices(segments)| == |PythonBlocks(segments)|
    ensures forall k :: 0 <= k < |PythonIndices(segments)| ==>
      IsPythonSegment(segments[PythonIndices(segments)[k]])
      && PythonBlocks(segments)[k] == BlockBody(segments[PythonIndices(segments)[k]])
    decreases |segments|
  {
    if |segments| > 0 {
      var n := |segments| - 1;
      var init := segments[..n];
      PythonBlocksInOrder(init);
      var prev := PythonIndices(init);
      var blocks := PythonBlocks(init);
      var idx := PythonIndices(segments);
      if IsPythonSegment(segments[n]) {
        assert idx == prev + [n];
        assert PythonBlocks(segments) == blocks + [BlockBody(segments[n])];
      } else {
        assert idx == prev;
        assert PythonBlocks(segments) == blocks;
      }
      forall k | 0 <= k < |prev|
        ensures idx[k] == prev[k] && segments[idx[k]] == init[prev[k]]
        ensures PythonBlocks(segments)[k] == blocks[k]
      {
      }
    }
  }

  /** The segments that yield snippets are taken in increasing order. */
  lemma {:induction false} PythonIndicesIncrease(segments: seq<string>)
    ensures forall a, b :: 0 <= a < b < |PythonIndices(segments)| ==> PythonIndices(segments)[a] < PythonIndices(segments)[b]
    decreases |segments|
  {
    if |segments| > 0 {
      var n := |segments| - 1;
      var init := segments[..n];
      PythonIndicesIncrease(init);
      var prev := PythonIndices(init);
      if IsPythonSegment(segments[n]) {
        assert PythonIndices(segments) == prev + [n];
      } else {
        assert PythonIndices(segments) == prev;
      }
    }
  }

  /** A segment is chosen if and only if it is a python segment. */
  lemma {:induction false} PythonIndicesExact(segments: seq<string>)
    ensures forall j :: 0 <= j < |segments| ==> (j in PythonIndices(segments) <==> IsPythonSegment(segments[j]))
    decreases |segments|
  {
    if |segments| > 0 {
      var n := |segments| - 1;
      var init := segments[..n];
      PythonIndicesExact(init);
      forall j | 0 <= j < |segments|
        ensures j in PythonIndices(segments) <==> IsPythonSegment(segments[j])
      {
        if j < n { assert init[j] == segments[j]; }
      }
    }
  }

  /** No snippet at all exactly when no segment is a python segment. */
  lemma {:induction false} PythonBlocksEmpty(segments: seq<string>)
    ensures PythonBlocks(segments) == [] <==> forall j :: 0 <= j < |segments| ==> !IsPythonSegment(segments[j])
    decreases |segments|
  {
    if |segments| > 0 {
      var n := |segments| - 1;
      PythonBlocksEmpty(segments[..n]);
      assert forall j :: 0 <= j < n ==> segments[..n][j] == segments[j];
    }
  }

  /** The segments examined are exactly the reply cut at the fences:
      joined back with the fence they give the reply. */
  lemma SegmentsCoverReply(reply: string)
    ensures Join(Split(reply, Fence), Fence) == reply
    ensures forall k :: 0 <= k < |Split(reply, Fence)| ==> !Contains(Split(reply, Fence)[k], Fence)
  {
    SplitJoin(reply, Fence);
    SplitPiecesFree(reply, Fence);
  }

  /** At most one snippet per fence, plus one. */
  lemma ReplyBlocksBound(reply: string)
    ensures |ReplyBlocks(reply)| <= Count(reply, Fence) + 1
  {
    SplitCount(reply, Fence);
  }

  /** A python segment contains the marker. */
  lemma PythonSegmentHasMarker(segment: string)
    requires IsPythonSegment(segment)
    ensures Contains(segment, Marker)
  {
    var i, j := StripBounds(segment);
    assert segment[i..i + |Marker|] == Marker;
    OccursContains(segment, Marker, i);
  }

  /** A reply that never mentions `python` yields no snippet. */
  lemma NoMarkerNoBlocks(reply: string)
    requires !Contains(reply, Marker)
    ensures ReplyBlocks(reply) == []
  {
    var segments := Split(reply, Fence);
    forall j | 0 <= j < |segments| ensures !IsPythonSegment(segments[j]) {
      var off := SplitPieceAt(reply, Fence, j);
      if IsPythonSegment(segments[j]) {
        PythonSegmentHasMarker(segments[j]);
        var i := Find(segments[j], Marker);
        OccursInInfix(reply, off, |segments[j]|, Marker, i);
        OccursContains(reply, Marker, off + i);
      }
    }
    PythonBlocksEmpty(segments);
  }

  /** A reply without any fence is a single segment: one snippet if its
      stripped text starts with `python`, none otherwise. */
  lemma UnfencedReply(reply: string)
    requires !Contains(reply, Fence)
    ensures IsPythonSegment(reply) ==> ReplyBlocks(reply) == [BlockBody(reply)]
    ensures !IsPythonSegment(reply) ==> ReplyBlocks(reply) == []
  {
    assert Split(reply, Fence) == [reply];
    assert [reply][..0] == [];
  }

  /** The marker is removed once: a segment made of white space, the marker,
      white space, a stripped snippet and white space yields that snippet,
      even when the snippet itself starts with `python`. */
  lemma MarkedSegment(pre: string, gap: string, code: string, post: string)
    requires AllSpace(pre) && AllSpace(gap) && AllSpace(post) && IsStripped(code)
    ensures IsPythonSegment(pre + Marker + gap + code + post)
    ensures BlockBody(pre + Marker + gap + code + post) == code
  {
    var segment := pre + Marker + gap + code + post;
    if |code| > 0 {
      MarkedStrip(pre, gap, code, post);
      assert Strip(segment)[|Marker|..] == gap + code;
      var rest := gap + code;
      assert rest[..|gap|] == gap && rest[|gap|..|rest|] == code && rest[|rest|..] == [];
      StripUnique(rest, |gap|, |rest|);
    } else {
      MarkedStripEmpty(pre, gap, post);
      assert segment == pre + Marker + (gap + post);
      assert Strip(segment)[|Marker|..] == [];
    }
  }

  /** Stripping a marked segment with a snippet leaves the marker, the gap
      and the snippet. */
  lemma MarkedStrip(pre: string, gap: string, code: string, post: string)
    requires AllSpace(pre) && AllSpace(post) && IsStripped(code) && |code| > 0
    ensures Strip(pre + Marker + gap + code + post) == Marker + gap + code
  {
    var segment := pre + Marker + gap + code + post;
    var a := |pre|;
    var b := a + |Marker| + |gap| + |code|;
    assert segment[..a] == pre;
    assert segment[a..b] == Marker + gap + code;
    assert segment[b..] == post;
    StripUnique(segment, a, b);
  }

  /** Stripping a marked segment without a snippet leaves the marker. */
  lemma MarkedStripEmpty(pre: string, gap: string, post: string)
    requires AllSpace(pre) && AllSpace(gap) && AllSpace(post)
    ensures Strip(pre + Marker + (gap + post)) == Marker
  {
    var segment := pre + Marker + (gap + post);
    var a := |pre|;
    var b := a + |Marker|;
    assert segment[..a] == pre;
    assert segment[a..b] == Marker;
    assert segment[b..] == gap + post;
    StripUnique(segment, a, b);
  }

  /** A reply built by joining segments with the fence is cut back into
      exactly those segments, so its snippets are theirs; this is the shape
      of a reply holding N fenced `python` blocks between prose. */
  lemma FencedReply(segments: seq<string>)
    requires |segments| >= 1
    requires forall k :: 0 <= k < |segments| ==> !Contains(segments[k], Fence)
    requires forall k :: 0 <= k < |segments| - 1 ==> |segments[k]| == 0 || segments[k][|segments[k]| - 1] != '`'
    ensures ReplyBlocks(Join(segments, Fence)) == PythonBlocks(segments)
  {
    JoinSplit(segments, Fence);
  }

  /** Text without a backtick contains no fence. */
  lemma NoBacktickNoFence(s: string)
    requires '`' !in s
    ensures !Contains(s, Fence)
  {
    forall k | 0 <= k && k + |Fence| <= |s| ensures !OccursAt(s, Fence, k) {
      assert s[k] in s && s[k..k + |Fence|][0] == s[k];
    }
  }

  /** Segments without a backtick come back from joining them with the
      fence and splitting again. */
  lemma BacktickFreeSegments(segments: seq<string>)
    requires |segments| >= 1
    requires forall k :: 0 <= k < |segments| ==> '`' !in segments[k]
    ensures Split(Join(segments, Fence), Fence) == segments
  {
    forall k | 0 <= k < |segments| ensures !Contains(segments[k], Fence) {
      NoBacktickNoFence(segments[k]);
    }
    forall k | 0 <= k < |segments| - 1
      ensures |segments[k]| == 0 || segments[k][|segments[k]| - 1] !in Fence
    {
      if |segments[k]| > 0 {
        assert segments[k][|segments[k]| - 1] in segments[k];
      }
    }
    JoinSplit(segments, Fence);
  }

  /** `python python x` yields `python x`: only the first marker goes. */
  lemma MarkerRemovedOnce()
    ensures IsPythonSegment("python python x")
    ensures BlockBody("python python x") == "python x"
  {
    assert "" + Marker + " " + "python x" + "" == "python python x";
    MarkedSegment("", " ", "python x", "");
  }

  /** The marker test is case-sensitive: `Python x` yields nothing. */
  lemma MarkerCaseSensitive()
    ensures !IsPythonSegment("Python x")
  {
    var s := "Python x";
    assert s[..0] == [] && s[|s|..] == [] && s[0..|s|] == s;
    StripUnique(s, 0, |s|);
  }

  /** A typical reply: prose, one fenced `python` block, prose. */
  lemma FencedExample()
    ensures ReplyBlocks("Intro\n" + Fence + "python\nprint(1)\n" + Fence + "\nDone") == ["print(1)"]
  {
    ExampleSegments();
    ExampleBlocks();
  }

  lemma ExampleSegments()
    ensures Split("Intro\n" + Fence + "python\nprint(1)\n" + Fence + "\nDone", Fence)
         == ["Intro\n", "python\nprint(1)\n", "\nDone"]
  {
    var segments := ["Intro\n", "python\nprint(1)\n", "\nDone"];
    assert forall k :: 0 <= k < |segments| ==> '`' !in segments[k];
    ExampleJoin();
    BacktickFreeSegments(segments);
  }

  lemma ExampleJoin()
    ensures Join(["Intro\n", "python\nprint(1)\n", "\nDone"], Fence)
         == "Intro\n" + Fence + "python\nprint(1)\n" + Fence + "\nDone"
  {
    var segments := ["Intro\n", "python\nprint(1)\n", "\nDone"];
    assert Join(segments[1..][1..], Fence) == segments[2];
    assert Join(segments[1..], Fence) == segments[1] + Fence + segments[2];
    assert Join(segments, Fence) == segments[0] + Fence + (segments[1] + Fence + segments[2]);
  }

  lemma ExampleBlocks()
    ensures PythonBlocks(["Intro\n", "python\nprint(1)\n", "\nDone"]) == ["print(1)"]
  {
    var segments := ["Intro\n", "python\nprint(1)\n", "\nDone"];
    ExampleProse();
    ExampleCode();
    assert segments[..2][..1] == ["Intro\n"] && segments[..1][..0] == [];
    assert PythonBlocks(segments[..1]) == [];
    assert PythonBlocks(segments[..2]) == ["print(1)"];
  }

  lemma ExampleProse()
    ensures !IsPythonSegment("Intro\n") && !IsPythonSegment("\nDone")
  {
    ProseSegment("Intro\n", 0, 5);
    ProseSegment("\nDone", 1, 5);
  }

  lemma ExampleCode()
    ensures IsPythonSegment("python\nprint(1)\n") && BlockBody("python\nprint(1)\n") == "print(1)"
  {
    assert "" + Marker + "\n" + "print(1)" + "\n" == "python\nprint(1)\n";
    MarkedSegment("", "\n", "print(1)", "\n");
  }

  /** A segment whose stripped text is s[i..j] with a first character other
      than `p` is not a python segment. */
  lemma ProseSegment(s: string, i: nat, j: nat)
    requires i < j <= |s| && s[i] != 'p'
    requires AllSpace(s[..i]) && AllSpace(s[j..]) && IsStripped(s[i..j])
    ensures !IsPythonSegment(s)
  {
    StripUnique(s, i, j);
    assert Strip(s)[0] == s[i];
  }

  /** A reply with no fence at all still yields its whole text as one
      snippet when that text starts with `python`. */
  lemma UnfencedExample()
    ensures ReplyBlocks("python print(1)") == ["print(1)"]
  {
    NoBacktickNoFence("python print(1)");
    assert "" + Marker + " " + "print(1)" + "" == "python print(1)";
    MarkedSegment("", " ", "print(1)", "");
    UnfencedReply("python print(1)");
  }

  /** A reply that is just the marker yields one empty snippet; the guard
      then still goes on to execution, since the list is not empty. */
  lemma MarkerOnlyExample()
    ensures ReplyBlocks(Marker) == [""]
  {
    NoBacktickNoFence(Marker);
    assert "" + Marker + "" + "" + "" == Marker;
    MarkedSegment("", "", "", "");
    UnfencedReply(Marker);
  }

}
