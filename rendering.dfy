/** How one message is laid out in the chat pane: text between triple-backtick
    fences becomes code blocks, the text around them plain paragraphs. */
module Rendering {
  import opened Conversation

  /** The code fence the renderer looks for and splits on. */
  const Fence: string := "```"

  /** The fence starts at position `j` of `s`. */
  predicate OccursAt(s: string, j: nat)
  {
    j + |Fence| <= |s| && s[j..j + |Fence|] == Fence
  }

  /** `s` includes the fence somewhere. */
  predicate Contains(s: string)
  {
    exists j: nat | j < |s| :: OccursAt(s, j)
  }

  /** The pieces of `s` between fences, scanning left to right and taking
      each leftmost occurrence, as a regular-expression split does: `k`
      fences give `k + 1` pieces, empty ones included. */
  function Split(s: string): (parts: seq<string>)
    ensures |parts| >= 1
    decreases |s|
  {
    if s == [] then [""]
    else if OccursAt(s, 0) then [""] + Split(s[|Fence|..])
    else
      var rest := Split(s[1..]);
      [[s[0]] + rest[0]] + rest[1..]
  }

  /** The pieces glued back together with a fence between neighbours. */
  function Join(parts: seq<string>): string
    requires |parts| >= 1
  {
    if |parts| == 1 then parts[0] else parts[0] + Fence + Join(parts[1..])
  }

  /** The number of fences the left-to-right scan finds (non-overlapping). */
  function Count(s: string): nat
    decreases |s|
  {
    if s == [] then 0
    else if OccursAt(s, 0) then 1 + Count(s[|Fence|..])
    else Count(s[1..])
  }

  /** No fence starts inside `p`, not even one that runs on into the fence
      written after it: the fence after `p` is the leftmost one. */
  predicate Leftmost(p: string)
  {
    forall j: nat :: j < |p| ==> !OccursAt(p + Fence, j)
  }

  /** `parts` is a decomposition of `s` at its leftmost non-overlapping fences. */
  predicate IsSplitOf(parts: seq<string>, s: string)
  {
    && |parts| >= 1
    && Join(parts) == s
    && (forall i :: 0 <= i < |parts| - 1 ==> Leftmost(parts[i]))
    && !Contains(parts[|parts| - 1])
  }

  /** Shifting by one leading character shifts every fence position by one. */
  lemma OccursAtCons(c: char, t: string, j: nat)
    ensures OccursAt([c] + t, j + 1) == OccursAt(t, j)
  {
    if j + |Fence| <= |t| {
      assert ([c] + t)[j + 1..j + 1 + |Fence|] == t[j..j + |Fence|];
    }
  }

  /** Whether a fence starts at `j` depends only on the characters there. */
  lemma OccursAtPrefix(u: string, w: string, j: nat)
    requires j + |Fence| <= |u|
    ensures OccursAt(u + w, j) == OccursAt(u, j)
  {
    assert (u + w)[j..j + |Fence|] == u[j..j + |Fence|];
  }

  /** Putting a character in front of the first piece puts it in front of the whole. */
  lemma JoinCons(c: char, parts: seq<string>)
    requires |parts| >= 1
    ensures Join([[c] + parts[0]] + parts[1..]) == [c] + Join(parts)
  {
    var q := [[c] + parts[0]] + parts[1..];
    if |parts| == 1 {
      assert q == [[c] + parts[0]];
    } else {
      JoinConsMore(c, parts[0], parts[1..]);
      assert parts == [parts[0]] + parts[1..];
    }
  }

  /** `JoinCons` when there is more than one piece. */
  lemma JoinConsMore(c: char, head: string, more: seq<string>)
    requires |more| >= 1
    ensures Join([[c] + head] + more) == [c] + Join([head] + more)
  {
    var j := Join(more);
    var q := [[c] + head] + more;
    var p := [head] + more;
    assert q[1..] == more && p[1..] == more;
    assert Join(q) == ([c] + head) + Fence + j;
    assert Join(p) == head + Fence + j;
    ConcatAssoc([c], head, j);
  }

  /** Regrouping the pieces around a fence. */
  lemma ConcatAssoc(a: string, b: string, d: string)
    ensures (a + b) + Fence + d == a + (b + Fence + d)
  {
  }

  /** Splitting and then joining gives back the original text. */
  lemma {:induction false} JoinSplit(s: string)
    ensures Join(Split(s)) == s
    decreases |s|
  {
    if s == [] {
    } else if OccursAt(s, 0) {
      JoinSplit(s[|Fence|..]);
      var rest := Split(s[|Fence|..]);
      assert ([""] + rest)[1..] == rest;
      assert s == s[..|Fence|] + s[|Fence|..];
    } else {
      JoinSplit(s[1..]);
      var rest := Split(s[1..]);
      JoinCons(s[0], rest);
      assert s == [s[0]] + s[1..];
    }
  }

  /** There is one more piece than there are fences. */
  lemma {:induction false} SplitCount(s: string)
    ensures |Split(s)| == Count(s) + 1
    decreases |s|
  {
    if s == [] {
    } else if OccursAt(s, 0) {
      SplitCount(s[|Fence|..]);
    } else {
      SplitCount(s[1..]);
    }
  }

  /** Past a position where no fence starts, the text includes a fence
      exactly when the rest of it does. */
  lemma ContainsTail(s: string)
    requires s != [] && !OccursAt(s, 0)
    ensures Contains(s) <==> Contains(s[1..])
  {
    assert s == [s[0]] + s[1..];
    if Contains(s) {
      var j: nat :| j < |s| && OccursAt(s, j);
      OccursAtCons(s[0], s[1..], j - 1);
    }
    if Contains(s[1..]) {
      var j: nat :| j < |s[1..]| && OccursAt(s[1..], j);
      OccursAtCons(s[0], s[1..], j);
    }
  }

  /** The scan finds a fence exactly when the text includes one. */
  lemma {:induction false} CountContains(s: string)
    ensures Count(s) > 0 <==> Contains(s)
    decreases |s|
  {
    if s == [] {
    } else if OccursAt(s, 0) {
      assert Contains(s);
    } else {
      CountContains(s[1..]);
      ContainsTail(s);
    }
  }

  /** A fence at the front of the text adds an empty first piece. */
  lemma FenceStep(rest: seq<string>, t: string)
    requires IsSplitOf(rest, t)
    ensures IsSplitOf([""] + rest, Fence + t)
  {
    var parts := [""] + rest;
    assert parts[1..] == rest;
    assert forall i :: 1 <= i < |parts| ==> parts[i] == rest[i - 1];
  }

  /** A character that does not start a fence joins the first piece. */
  lemma CharStep(c: char, rest: seq<string>, t: string)
    requires IsSplitOf(rest, t)
    requires !OccursAt([c] + t, 0)
    ensures IsSplitOf([[c] + rest[0]] + rest[1..], [c] + t)
  {
    var first := [c] + rest[0];
    var parts := [first] + rest[1..];
    JoinCons(c, rest);
    assert forall i :: 1 <= i < |parts| ==> parts[i] == rest[i];
    if |rest| == 1 {
      // the first piece is the whole text: no fence at 0, and none later
      assert first == [c] + t;
      forall j: nat | j < |first| ensures !OccursAt(first, j) {
        if j > 0 {
          OccursAtCons(c, rest[0], j - 1);
        }
      }
    } else {
      // the first piece, followed by a fence, is a prefix of the text
      assert Leftmost(first) by {
        forall j: nat | j < |first| ensures !OccursAt(first + Fence, j) {
          if j == 0 {
            assert [c] + t == first + Fence + Join(rest[1..]);
            OccursAtPrefix(first + Fence, Join(rest[1..]), 0);
          } else {
            assert first + Fence == [c] + (rest[0] + Fence);
            OccursAtCons(c, rest[0] + Fence, j - 1);
          }
        }
      }
    }
  }

  /** The split really cuts at the leftmost fences and leaves none in the last piece. */
  lemma {:induction false} SplitIsSplitOf(s: string)
    ensures IsSplitOf(Split(s), s)
    decreases |s|
  {
    if s == [] {
      assert !Contains(s);
    } else if OccursAt(s, 0) {
      SplitIsSplitOf(s[|Fence|..]);
      FenceStep(Split(s[|Fence|..]), s[|Fence|..]);
      assert s == Fence + s[|Fence|..];
    } else {
      SplitIsSplitOf(s[1..]);
      assert s == [s[0]] + s[1..];
      CharStep(s[0], Split(s[1..]), s[1..]);
    }
  }

  /** A decomposition whose first piece is empty starts with a fence, and
      the remaining pieces decompose the text after it. */
  lemma DropFence(parts: seq<string>, s: string)
    requires IsSplitOf(parts, s) && |parts| > 1 && parts[0] == []
    ensures OccursAt(s, 0)
    ensures IsSplitOf(parts[1..], s[|Fence|..])
    ensures parts == [""] + parts[1..]
  {
    var rest := parts[1..];
    assert s == Fence + Join(rest);
    assert s[..|Fence|] == Fence;
    assert s[|Fence|..] == Join(rest);
    assert forall i :: 0 <= i < |rest| - 1 ==> rest[i] == parts[i + 1];
  }

  /** A decomposition whose first piece is not empty starts with a character
      that does not begin a fence; without it, the pieces decompose the rest. */
  lemma DropChar(parts: seq<string>, s: string)
    requires IsSplitOf(parts, s) && parts[0] != []
    ensures s != [] && !OccursAt(s, 0)
    ensures IsSplitOf([parts[0][1..]] + parts[1..], s[1..])
    ensures parts == [[s[0]] + parts[0][1..]] + parts[1..]
  {
    var p0 := parts[0];
    var tail := [p0[1..]] + parts[1..];
    assert p0 == [p0[0]] + p0[1..];
    JoinCons(p0[0], tail);
    assert tail[1..] == parts[1..];
    assert [[p0[0]] + tail[0]] + tail[1..] == parts;
    assert s == [p0[0]] + Join(tail);
    if |parts| == 1 {
      assert !OccursAt(s, 0) by {
        assert !Contains(p0);
      }
      assert !Contains(tail[0]) by {
        forall j: nat | j < |tail[0]| ensures !OccursAt(tail[0], j) {
          OccursAtCons(p0[0], tail[0], j);
        }
      }
    } else {
      assert !OccursAt(s, 0) by {
        assert !OccursAt(p0 + Fence, 0);
        assert s == p0 + Fence + Join(parts[1..]);
        OccursAtPrefix(p0 + Fence, Join(parts[1..]), 0);
      }
      assert Leftmost(tail[0]) by {
        forall j: nat | j < |tail[0]| ensures !OccursAt(tail[0] + Fence, j) {
          assert p0 + Fence == [p0[0]] + (tail[0] + Fence);
          OccursAtCons(p0[0], tail[0] + Fence, j);
        }
      }
      assert forall i :: 1 <= i < |tail| - 1 ==> tail[i] == parts[i];
    }
  }

  /** Only one decomposition has the leftmost-fence shape: the split is
      fully characterised by `IsSplitOf`. */
  lemma {:induction false} SplitUnique(parts: seq<string>, s: string)
    requires IsSplitOf(parts, s)
    ensures parts == Split(s)
    decreases |s|
  {
    if parts[0] == [] && |parts| == 1 {
      assert s == [];
    } else if parts[0] == [] {
      DropFence(parts, s);
      SplitUnique(parts[1..], s[|Fence|..]);
    } else {
      DropChar(parts, s);
      SplitUnique([parts[0][1..]] + parts[1..], s[1..]);
    }
  }

  /** Every piece is free of fences. */
  lemma PiecesFenceFree(s: string)
    ensures forall i :: 0 <= i < |Split(s)| ==> !Contains(Split(s)[i])
  {
    var parts := Split(s);
    SplitIsSplitOf(s);
    forall i | 0 <= i < |parts| - 1 ensures !Contains(parts[i]) {
      forall j: nat ensures !OccursAt(parts[i], j) {
        if j + |Fence| <= |parts[i]| {
          OccursAtPrefix(parts[i], Fence, j);
        }
      }
    }
  }

  /** A displayable piece of a message: a plain paragraph or a code block. */
  datatype Segment = Paragraph(text: string) | CodeBlock(text: string)

  /** The texts of the segments, in order. */
  function Texts(segs: seq<Segment>): seq<string>
  {
    seq(|segs|, i requires 0 <= i < |segs| => segs[i].text)
  }

  /** Tags the pieces by position: odd positions are code, even ones plain. */
  function Tag(parts: seq<string>): seq<Segment>
  {
    seq(|parts|, i requires 0 <= i < |parts| =>
      if i % 2 == 1 then CodeBlock(parts[i]) else Paragraph(parts[i]))
  }

  /** The segments a message is shown as. With a fence, the pieces of the
      split in order, code at odd positions and paragraphs at even ones;
      without one, the whole text as a single paragraph. */
  function RenderMessage(msg: Message): (segs: seq<Segment>)
    ensures |segs| == Count(msg.text) + 1
    ensures Texts(segs) == Split(msg.text)
    ensures forall i :: 0 <= i < |segs| ==> (segs[i].CodeBlock? <==> i % 2 == 1)
    ensures Join(Texts(segs)) == msg.text
  {
    SplitCount(msg.text);
    JoinSplit(msg.text);
    if Contains(msg.text) then
      Tag(Split(msg.text))
    else
      SplitUnique([msg.text], msg.text);
      [Paragraph(msg.text)]
  }

  /** Text without a fence is shown as exactly one paragraph holding all of it. */
  lemma RenderWithoutFence(msg: Message)
    requires !Contains(msg.text)
    ensures RenderMessage(msg) == [Paragraph(msg.text)]
  {
    CountContains(msg.text);
    var segs := RenderMessage(msg);
    assert Texts(segs)[0] == segs[0].text;
  }

  /** Text with a fence is shown as at least two segments, and no segment
      contains a fence. */
  lemma RenderWithFence(msg: Message)
    requires Contains(msg.text)
    ensures |RenderMessage(msg)| >= 2
    ensures forall i :: 0 <= i < |RenderMessage(msg)| ==> !Contains(RenderMessage(msg)[i].text)
  {
    CountContains(msg.text);
    PiecesFenceFree(msg.text);
    var segs := RenderMessage(msg);
    forall i | 0 <= i < |segs| ensures !Contains(segs[i].text) {
      assert Texts(segs)[i] == segs[i].text;
    }
  }

  /** The renderer's check for a fence only saves work: tagging the split
      pieces gives the same segments whether or not the text has one. */
  lemma RenderIsTagSplit(msg: Message)
    ensures RenderMessage(msg) == Tag(Split(msg.text))
  {
    if !Contains(msg.text) {
      RenderWithoutFence(msg);
      SplitUnique([msg.text], msg.text);
    }
  }

  /** A fenced snippet between two words renders as paragraph, code, paragraph. */
  lemma RenderExample()
    ensures RenderMessage(Message("a```code```b", true))
         == [Paragraph("a"), CodeBlock("code"), Paragraph("b")]
  {
    ExampleIsSplit();
    SplitUnique(["a", "code", "b"], "a```code```b");
    RenderIsTagSplit(Message("a```code```b", true));
    ExampleTags();
  }

  /** Tagging the example's pieces by position. */
  lemma ExampleTags()
    ensures Tag(["a", "code", "b"]) == [Paragraph("a"), CodeBlock("code"), Paragraph("b")]
  {
  }

  /** The pieces of the example text, checked against the leftmost-fence shape. */
  lemma ExampleIsSplit()
    ensures IsSplitOf(["a", "code", "b"], "a```code```b")
  {
    var parts := ["a", "code", "b"];
    assert parts[1..][1..] == ["b"];
    assert Join(parts) == "a```code```b";
    assert Leftmost("a") by {
      forall j: nat | j < 1 ensures !OccursAt("a" + Fence, j) {
        assert ("a" + Fence)[0] == 'a';
      }
    }
    assert Leftmost("code") by {
      forall j: nat | j < 4 ensures !OccursAt("code" + Fence, j) {
        assert ("code" + Fence)[j] != '`';
      }
    }
    assert !Contains("b");
  }
}
