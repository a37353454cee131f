/** The chunker of services/geminiService.ts (`chunkText`): splits the extracted text into
    paragraphs at blank lines and packs them greedily into chunks of bounded size, cutting a
    paragraph that is too long on its own into fixed-width slices. */
module Chunker {
  import opened Text

  /** The chunk size the annotator uses, in characters. */
  const ChunkSize: nat := 15000

  function Min(a: int, b: int): int {
    if a < b then a else b
  }

  /** `p.trim().length > 0`: the piece is not all whitespace. */
  predicate HasContent(p: string)
    ensures HasContent(p) ==> |p| > 0
    ensures HasContent(p) <==> !(forall i :: 0 <= i < |p| ==> IsJsWhitespace(p[i]))
  {
    |Trim(p)| > 0
  }

  /** `ps.filter(p => p.trim().length > 0)`: keeps, untrimmed and in order, the pieces that are
      not all whitespace. */
  function KeepContent(ps: seq<string>): (r: seq<string>)
    ensures |r| <= |ps|
    ensures forall i :: 0 <= i < |r| ==> HasContent(r[i])
  {
    if ps == [] then [] else (if HasContent(ps[0]) then [ps[0]] else []) + KeepContent(ps[1..])
  }

  /** The filter drops everything exactly when no piece has content. */
  lemma {:induction false} KeepContentEmpty(ps: seq<string>)
    ensures KeepContent(ps) == [] <==> forall i :: 0 <= i < |ps| ==> !HasContent(ps[i])
  {
    if ps != [] {
      KeepContentEmpty(ps[1..]);
      assert forall i :: 0 <= i < |ps| - 1 ==> ps[1..][i] == ps[i + 1];
    }
  }

  /** A piece is kept, as it is, exactly when it is one of the pieces and has content. */
  lemma {:induction false} KeepContentMembers(ps: seq<string>)
    ensures forall x :: x in KeepContent(ps) <==> x in ps && HasContent(x)
  {
    if ps != [] {
      KeepContentMembers(ps[1..]);
      assert ps == [ps[0]] + ps[1..];
    }
  }

  /** Filtering a list made of two lists filters each in turn, so the kept pieces stay in
      their order. */
  lemma {:induction false} KeepContentAppend(a: seq<string>, b: seq<string>)
    ensures KeepContent(a + b) == KeepContent(a) + KeepContent(b)
    decreases |a|
  {
    if a != [] {
      var h := if HasContent(a[0]) then [a[0]] else [];
      assert (a + b)[0] == a[0] && (a + b)[1..] == a[1..] + b;
      assert KeepContent(a + b) == h + KeepContent(a[1..] + b);
      KeepContentAppend(a[1..], b);
    } else {
      assert a + b == b;
    }
  }

  /** The paragraphs of `text`: split at blank lines, whitespace-only pieces dropped. */
  function Paragraphs(text: string): (r: seq<string>)
    ensures |r| <= |SplitOn(text, ParaSep)|
    ensures forall i :: 0 <= i < |r| ==> HasContent(r[i])
  {
    KeepContent(SplitOn(text, ParaSep))
  }

  /** The paragraphs of a text are exactly its non-blank pieces between blank lines, each
      untrimmed, and those pieces joined at blank lines give the text back. */
  lemma ParagraphsOfText(text: string)
    ensures forall x :: x in Paragraphs(text) <==> x in SplitOn(text, ParaSep) && HasContent(x)
    ensures Join(SplitOn(text, ParaSep), ParaSep) == text
  {
    KeepContentMembers(SplitOn(text, ParaSep));
    JoinSplit(text, ParaSep);
  }

  /** Dropping pieces keeps a list separable. */
  lemma {:induction false} KeepContentSeparable(ps: seq<string>)
    requires Separable(ps, ParaSep)
    ensures Separable(KeepContent(ps), ParaSep)
    decreases |ps|
  {
    if ps != [] {
      var rest := KeepContent(ps[1..]);
      SeparableSlice(ps, ParaSep, 1, |ps|);
      KeepContentSeparable(ps[1..]);
      if HasContent(ps[0]) {
        var r := [ps[0]] + rest;
        assert KeepContent(ps) == r;
        forall i | 0 <= i < |r| ensures Free(r[i], ParaSep) {
          if i > 0 {
            assert r[i] == rest[i - 1];
          }
        }
        forall i | 0 <= i < |r| - 1 ensures EndsCleanly(r[i], ParaSep) {
          if i > 0 {
            assert r[i] == rest[i - 1];
          }
        }
      } else {
        assert KeepContent(ps) == rest;
      }
    }
  }

  /** The paragraphs of any text can be joined and split back. */
  lemma ParagraphsSeparable(text: string)
    ensures Separable(Paragraphs(text), ParaSep)
  {
    SplitSeparable(text, ParaSep);
    KeepContentSeparable(SplitOn(text, ParaSep));
  }

  /** A text made only of whitespace has no paragraphs. */
  lemma BlankTextHasNoParagraphs(text: string)
    requires forall i :: 0 <= i < |text| ==> IsJsWhitespace(text[i])
    ensures Paragraphs(text) == []
  {
    var ps := SplitOn(text, ParaSep);
    JoinSplit(text, ParaSep);
    forall i | 0 <= i < |ps| ensures !HasContent(ps[i]) {
      forall j | 0 <= j < |ps[i]| ensures IsJsWhitespace(ps[i][j]) {
        JoinHasPartChars(ps, ParaSep, i, ps[i][j]);
      }
    }
    KeepContentEmpty(ps);
  }

  /** A text has no paragraph exactly when it is made only of whitespace. */
  lemma ParagraphsEmptyIff(text: string)
    ensures Paragraphs(text) == [] <==> forall i :: 0 <= i < |text| ==> IsJsWhitespace(text[i])
  {
    if forall i :: 0 <= i < |text| ==> IsJsWhitespace(text[i]) {
      BlankTextHasNoParagraphs(text);
    } else {
      var k :| 0 <= k < |text| && !IsJsWhitespace(text[k]);
      var ps := SplitOn(text, ParaSep);
      JoinSplit(text, ParaSep);
      JoinCharsFromParts(ps, ParaSep, text[k]);
      var i :| 0 <= i < |ps| && text[k] in ps[i];
      var j :| 0 <= j < |ps[i]| && ps[i][j] == text[k];
      assert HasContent(ps[i]);
      KeepContentEmpty(ps);
    }
  }

  /** The slices of an over-long paragraph: `p.substring(pos, pos + size)` for pos = 0, size,
      2 * size, ... while pos is inside the paragraph. */
  function Slices(p: string, size: nat): (r: seq<string>)
    requires size > 0
    ensures forall i :: 0 <= i < |r| ==> 0 < |r[i]| <= size
    decreases |p|
  {
    if |p| == 0 then []
    else
      var w := Min(size, |p|);
      [p[..w]] + Slices(p[w..], size)
  }

  /** The slices glue back into the paragraph; each is `size` wide except the last, which is
      not empty and not wider. */
  lemma {:induction false} SlicesShape(p: string, size: nat)
    requires size > 0
    ensures var sl := Slices(p, size);
      && Concat(sl) == p
      && (|sl| > 0 <==> |p| > 0)
      && (forall i :: 0 <= i < |sl| - 1 ==> |sl[i]| == size)
      && (forall i :: 0 <= i < |sl| ==> 0 < |sl[i]| <= size)
    decreases |p|
  {
    if |p| > 0 {
      var w := Min(size, |p|);
      var rest := Slices(p[w..], size);
      SlicesShape(p[w..], size);
      var sl := Slices(p, size);
      assert sl == [p[..w]] + rest;
      assert sl[1..] == rest;
      assert p == p[..w] + p[w..];
      forall i | 0 <= i < |sl| - 1 ensures |sl[i]| == size {
        if i > 0 {
          assert sl[i] == rest[i - 1];
        } else {
          assert |rest| > 0;
        }
      }
      forall i | 0 <= i < |sl| ensures 0 < |sl[i]| <= size {
        if i > 0 {
          assert sl[i] == rest[i - 1];
        }
      }
    }
  }

  /** A piece of the chunker's output, tagged with how it came about. */
  datatype Run =
    | Accumulated(chunk: string)        // the accumulator `currentChunk`, pushed as one chunk
    | ForceSplit(slices: seq<string>)   // the slices of one over-long paragraph, one chunk each

  /** The chunker between two paragraphs: the runs pushed so far and `currentChunk`. */
  datatype Packer = Packer(runs: seq<Run>, current: string)

  /** The chunks one run stands for. */
  function Emit(r: Run): seq<string> {
    match r
    case Accumulated(c) => [c]
    case ForceSplit(sl) => sl
  }

  /** The chunks a list of runs stands for, in order. */
  function Emitted(runs: seq<Run>): seq<string> {
    if runs == [] then [] else Emitted(runs[..|runs| - 1]) + Emit(runs[|runs| - 1])
  }

  /** The paragraphs one run came from: a packed chunk split back at blank lines (the empty
      chunk holds none), a run of slices glued back into its paragraph. */
  function Unpack(r: Run): seq<string> {
    match r
    case Accumulated(c) => if |c| == 0 then [] else SplitOn(c, ParaSep)
    case ForceSplit(sl) => [Concat(sl)]
  }

  /** The paragraphs a list of runs came from, in order. */
  function Recover(runs: seq<Run>): seq<string> {
    if runs == [] then [] else Recover(runs[..|runs| - 1]) + Unpack(runs[|runs| - 1])
  }

  lemma {:induction false} EmittedAppend(a: seq<Run>, b: seq<Run>)
    ensures Emitted(a + b) == Emitted(a) + Emitted(b)
    decreases |b|
  {
    if b != [] {
      var b' := b[..|b| - 1];
      EmittedAppend(a, b');
      assert (a + b)[..|a + b| - 1] == a + b';
    } else {
      assert a + b == a;
    }
  }

  lemma {:induction false} RecoverAppend(a: seq<Run>, b: seq<Run>)
    ensures Recover(a + b) == Recover(a) + Recover(b)
    decreases |b|
  {
    if b != [] {
      var b' := b[..|b| - 1];
      RecoverAppend(a, b');
      assert (a + b)[..|a + b| - 1] == a + b';
    } else {
      assert a + b == a;
    }
  }

  /** `if (currentChunk) chunks.push(currentChunk)`: never pushes an empty chunk. */
  function Flush(current: string): (r: seq<Run>)
    ensures forall c :: c in Emitted(r) ==> |c| > 0
  {
    if |current| > 0 then [Accumulated(current)] else []
  }

  /** One pass of the paragraph loop of `chunkText`. The second branch adds 2 for the
      separator and pushes the accumulator even when it is empty, so a paragraph of length
      `size - 1` or `size` arriving at an empty accumulator pushes an empty chunk. */
  function Step(st: Packer, p: string, size: nat): (r: Packer)
    requires size > 0
    ensures |st.runs| <= |r.runs| && r.runs[..|st.runs|] == st.runs
    ensures |p| > size ==> r.current == ""
  {
    if |p| > size then
      Packer(st.runs + Flush(st.current) + [ForceSplit(Slices(p, size))], "")
    else if |st.current| + |p| + 2 > size then
      Packer(st.runs + [Accumulated(st.current)], p)
    else
      Packer(st.runs, st.current + (if |st.current| > 0 then ParaSep else "") + p)
  }

  /** The chunker after the paragraphs `ps`, starting from no chunks and an empty accumulator. */
  function Pack(ps: seq<string>, size: nat): Packer
    requires size > 0
  {
    if ps == [] then Packer([], "") else Step(Pack(ps[..|ps| - 1], size), ps[|ps| - 1], size)
  }

  /** The runs pushed for the paragraphs `ps`, then the final flush of the accumulator. */
  function Packed(ps: seq<string>, size: nat): seq<Run>
    requires size > 0
  {
    var st := Pack(ps, size);
    st.runs + Flush(st.current)
  }

  /** The tagged output of `chunkText(text, size)`. */
  function Layout(text: string, size: nat): seq<Run>
    requires size > 0
  {
    Packed(Paragraphs(text), size)
  }

  /** `chunkText(text, size)`. */
  function Chunks(text: string, size: nat): seq<string>
    requires size > 0
  {
    Emitted(Layout(text, size))
  }

  /** The paragraphs in the accumulator after one more paragraph `p`. */
  ghost function NextGroup(g: seq<string>, current: string, p: string, size: nat): seq<string> {
    if |p| > size then []
    else if |current| + |p| + 2 > size then [p]
    else g + [p]
  }

  /** The paragraphs held by the accumulator after `ps`. */
  ghost function Group(ps: seq<string>, size: nat): seq<string>
    requires size > 0
  {
    if ps == [] then []
    else
      var init := ps[..|ps| - 1];
      NextGroup(Group(init, size), Pack(init, size).current, ps[|ps| - 1], size)
  }

  /** A packed chunk built from separable, non-empty paragraphs splits back into them. */
  lemma UnpackJoin(g: seq<string>)
    requires Separable(g, ParaSep)
    requires forall i :: 0 <= i < |g| ==> |g[i]| > 0
    ensures (|Join(g, ParaSep)| == 0) == (g == [])
    ensures Unpack(Accumulated(Join(g, ParaSep))) == g
  {
    if g != [] {
      assert |Join(g, ParaSep)| >= |g[0]|;
      SplitJoin(g, ParaSep);
    }
  }

  /** Flushing an accumulator that holds the join of `g` gives back `g`. */
  lemma RecoverFlush(g: seq<string>)
    requires Separable(g, ParaSep)
    requires forall i :: 0 <= i < |g| ==> |g[i]| > 0
    ensures Recover(Flush(Join(g, ParaSep))) == g
  {
    UnpackJoin(g);
    if g != [] {
      var c := Join(g, ParaSep);
      assert Flush(c) == [Accumulated(c)];
      assert Recover([Accumulated(c)]) == Recover([]) + Unpack(Accumulated(c));
    }
  }

  /** One pass of the loop: the paragraph either joins the accumulator, or the accumulator is
      pushed and the paragraph starts a new one, or both are pushed; no paragraph is lost or
      moved. */
  lemma StepRecover(st: Packer, g: seq<string>, p: string, size: nat)
    requires size > 0 && |p| > 0
    requires Separable(g, ParaSep) && forall i :: 0 <= i < |g| ==> |g[i]| > 0
    requires st.current == Join(g, ParaSep)
    ensures var st', g' := Step(st, p, size), NextGroup(g, st.current, p, size);
      && st'.current == Join(g', ParaSep)
      && Recover(st'.runs) + g' == Recover(st.runs) + g + [p]
  {
    UnpackJoin(g);
    if |p| > size {
      var sl := Slices(p, size);
      SlicesShape(p, size);
      RecoverFlush(g);
      RecoverAppend(st.runs, Flush(st.current));
      RecoverAppend(st.runs + Flush(st.current), [ForceSplit(sl)]);
      assert Recover([ForceSplit(sl)]) == Recover([]) + [p];
    } else if |st.current| + |p| + 2 > size {
      RecoverAppend(st.runs, [Accumulated(st.current)]);
      assert Recover([Accumulated(st.current)]) == Recover([]) + Unpack(Accumulated(st.current));
    } else if g != [] {
      JoinSnoc(g, p, ParaSep);
    }
  }

  /** The accumulator always holds the last few paragraphs seen. */
  lemma {:induction false} GroupSuffix(ps: seq<string>, size: nat)
    requires size > 0
    ensures var g := Group(ps, size); |g| <= |ps| && g == ps[|ps| - |g|..]
    decreases |ps|
  {
    if ps != [] {
      var init, p := ps[..|ps| - 1], ps[|ps| - 1];
      var g, current := Group(init, size), Pack(init, size).current;
      assert Group(ps, size) == NextGroup(g, current, p, size);
      GroupSuffix(init, size);
      NextGroupSuffix(init, g, current, p, size);
      assert init + [p] == ps;
    }
  }

  /** After any prefix of the paragraphs, the accumulator holds the join of the paragraphs in
      it, and the runs pushed so far give back all the others, in order. */
  lemma {:induction false} PackInvariant(ps: seq<string>, size: nat)
    requires size > 0
    requires Separable(ps, ParaSep)
    requires forall i :: 0 <= i < |ps| ==> |ps[i]| > 0
    ensures var st, g := Pack(ps, size), Group(ps, size);
      st.current == Join(g, ParaSep) && Recover(st.runs) + g == ps
    decreases |ps|
  {
    if ps != [] {
      var init, p := ps[..|ps| - 1], ps[|ps| - 1];
      var st, g := Pack(init, size), Group(init, size);
      assert Pack(ps, size) == Step(st, p, size);
      assert Group(ps, size) == NextGroup(g, st.current, p, size);
      assert ps == init + [p];
      assert st.current == Join(g, ParaSep) && Recover(st.runs) + g == init by {
        SeparableSlice(ps, ParaSep, 0, |ps| - 1);
        assert ps[0..|ps| - 1] == init;
        PackInvariant(init, size);
      }
      assert Separable(g, ParaSep) && forall i :: 0 <= i < |g| ==> |g[i]| > 0 by {
        GroupSuffix(init, size);
        assert g == ps[|init| - |g|..|init|];
        SeparableSlice(ps, ParaSep, |init| - |g|, |init|);
      }
      StepRecover(st, g, p, size);
    }
  }

  lemma NextGroupSuffix(init: seq<string>, g: seq<string>, current: string, p: string, size: nat)
    requires |g| <= |init| && g == init[|init| - |g|..]
    ensures var ps, g' := init + [p], NextGroup(g, current, p, size);
      |g'| <= |ps| && g' == ps[|ps| - |g'|..]
  {
    var ps := init + [p];
    if |p| > size {
    } else if |current| + |p| + 2 > size {
      assert ps[|ps| - 1..] == [p];
    } else {
      assert ps[|ps| - |g| - 1..] == init[|init| - |g|..] + [p];
    }
  }

  /** Order and losslessness for a list of paragraphs: when the paragraphs are non-empty and
      separable at blank lines, gluing each run of slices of their packing back together,
      splitting each packed chunk at blank lines and dropping the empty chunks gives the
      list back. */
  lemma RecoverPacked(ps: seq<string>, size: nat)
    requires size > 0
    requires Separable(ps, ParaSep)
    requires forall i :: 0 <= i < |ps| ==> |ps[i]| > 0
    ensures Recover(Packed(ps, size)) == ps
  {
    PackInvariant(ps, size);
    GroupSuffix(ps, size);
    var st, g := Pack(ps, size), Group(ps, size);
    SeparableSlice(ps, ParaSep, |ps| - |g|, |ps|);
    assert ps[|ps| - |g|..|ps|] == g;
    RecoverFlush(g);
    RecoverAppend(st.runs, Flush(st.current));
  }

  /** The paragraphs of a text are not empty. */
  lemma ParagraphsNotEmpty(text: string)
    ensures forall i :: 0 <= i < |Paragraphs(text)| ==> |Paragraphs(text)[i]| > 0
  {
    var ps := Paragraphs(text);
    forall i | 0 <= i < |ps| ensures |ps[i]| > 0 {
      assert HasContent(ps[i]);
    }
  }

  /** Order and losslessness for a text: the runs `chunkText` builds from any text recover
      exactly the paragraphs of that text, in order. The paragraphs of a text meet the
      conditions of `RecoverPacked`. */
  lemma RecoverLayout(text: string, size: nat)
    requires size > 0
    ensures Recover(Layout(text, size)) == Paragraphs(text)
  {
    ParagraphsSeparable(text);
    ParagraphsNotEmpty(text);
    RecoverPacked(Paragraphs(text), size);
  }

  /** Every chunk, packed or sliced, is at most `size` characters long. */
  predicate Bounded(chunks: seq<string>, size: nat) {
    forall i :: 0 <= i < |chunks| ==> |chunks[i]| <= size
  }

  lemma BoundedAppend(a: seq<string>, b: seq<string>, size: nat)
    requires Bounded(a, size) && Bounded(b, size)
    ensures Bounded(a + b, size)
  {
    forall i | 0 <= i < |a + b| ensures |(a + b)[i]| <= size {
      if i >= |a| {
        assert (a + b)[i] == b[i - |a|];
      }
    }
  }

  /** One pass of the loop keeps every chunk and the accumulator within `size`. */
  lemma StepBounded(st: Packer, p: string, size: nat)
    requires size > 0
    requires Bounded(Emitted(st.runs), size) && |st.current| <= size
    ensures var st' := Step(st, p, size);
      Bounded(Emitted(st'.runs), size) && |st'.current| <= size
  {
    if |p| > size {
      var sl := Slices(p, size);
      SlicesShape(p, size);
      EmittedAppend(st.runs, Flush(st.current));
      EmittedAppend(st.runs + Flush(st.current), [ForceSplit(sl)]);
      assert Emitted([ForceSplit(sl)]) == sl;
      assert Bounded(Emitted(Flush(st.current)), size);
      BoundedAppend(Emitted(st.runs), Emitted(Flush(st.current)), size);
      BoundedAppend(Emitted(st.runs + Flush(st.current)), sl, size);
    } else if |st.current| + |p| + 2 > size {
      EmittedAppend(st.runs, [Accumulated(st.current)]);
      assert Emitted([Accumulated(st.current)]) == [st.current];
      BoundedAppend(Emitted(st.runs), [st.current], size);
    }
  }

  lemma {:induction false} PackBounded(ps: seq<string>, size: nat)
    requires size > 0
    ensures Bounded(Emitted(Pack(ps, size).runs), size)
    ensures |Pack(ps, size).current| <= size
    decreases |ps|
  {
    if ps != [] {
      var init, p := ps[..|ps| - 1], ps[|ps| - 1];
      PackBounded(init, size);
      StepBounded(Pack(init, size), p, size);
    }
  }

  lemma PackedBounded(ps: seq<string>, size: nat)
    requires size > 0
    ensures Bounded(Emitted(Packed(ps, size)), size)
  {
    var st := Pack(ps, size);
    PackBounded(ps, size);
    EmittedAppend(st.runs, Flush(st.current));
    BoundedAppend(Emitted(st.runs), Emitted(Flush(st.current)), size);
  }

  /** No chunk is longer than `size`. */
  lemma ChunksBounded(text: string, size: nat)
    requires size > 0
    ensures Bounded(Chunks(text, size), size)
  {
    PackedBounded(Paragraphs(text), size);
  }

  /** Packing non-empty paragraphs emits no chunk exactly when there is no paragraph. */
  lemma PackedEmptyIff(ps: seq<string>, size: nat)
    requires size > 0
    requires forall i :: 0 <= i < |ps| ==> |ps[i]| > 0
    ensures Emitted(Packed(ps, size)) == [] <==> ps == []
  {
    if ps != [] {
      var init, p := ps[..|ps| - 1], ps[|ps| - 1];
      var pre := Pack(init, size);
      var st := Pack(ps, size);
      assert st == Step(pre, p, size);
      EmittedAppend(st.runs, Flush(st.current));
      if |p| > size {
        SlicesShape(p, size);
        EmittedAppend(pre.runs + Flush(pre.current), [ForceSplit(Slices(p, size))]);
        assert Emitted([ForceSplit(Slices(p, size))]) == Slices(p, size);
      } else if |pre.current| + |p| + 2 > size {
        EmittedAppend(pre.runs, [Accumulated(pre.current)]);
        assert Emitted([Accumulated(pre.current)]) == [pre.current];
      } else {
        assert |st.current| > 0;
        assert Emitted(Flush(st.current)) == [st.current];
      }
    }
  }

  /** There are no chunks exactly when there are no paragraphs. */
  lemma ChunksEmptyIff(text: string, size: nat)
    requires size > 0
    ensures Chunks(text, size) == [] <==> Paragraphs(text) == []
  {
    ParagraphsNotEmpty(text);
    PackedEmptyIff(Paragraphs(text), size);
  }

  /** The runs pushed after a prefix of the paragraphs are a prefix of the runs pushed after
      all of them: chunks are only ever appended. */
  lemma {:induction false} PackRunsGrow(ps: seq<string>, k: nat, size: nat)
    requires size > 0 && k <= |ps|
    ensures var a, b := Pack(ps[..k], size).runs, Pack(ps, size).runs;
      |a| <= |b| && b[..|a|] == a
    decreases |ps| - k
  {
    if k < |ps| {
      var init := ps[..|ps| - 1];
      assert init[..k] == ps[..k];
      PackRunsGrow(init, k, size);
    } else {
      assert ps[..k] == ps;
    }
  }

  /** The empty-chunk quirk: when the first paragraph is `size - 1` or `size` characters long,
      the first chunk is the empty string. */
  lemma EmptyFirstChunk(ps: seq<string>, size: nat)
    requires size > 0
    requires ps != [] && size - 2 < |ps[0]| <= size
    ensures |Emitted(Packed(ps, size))| > 0 && Emitted(Packed(ps, size))[0] == ""
  {
    assert ps[..1] == [ps[0]];
    assert ps[..1][..0] == [];
    assert Pack(ps[..1], size).runs == [Accumulated("")];
    PackRunsGrow(ps, 1, size);
    var st := Pack(ps, size);
    assert st.runs == [Accumulated("")] + st.runs[1..];
    EmittedAppend([Accumulated("")], st.runs[1..] + Flush(st.current));
    assert Packed(ps, size) == [Accumulated("")] + (st.runs[1..] + Flush(st.current));
    assert Emitted([Accumulated("")]) == [""];
  }

  /** The same quirk stated on a text. */
  lemma EmptyFirstChunkOfText(text: string, size: nat)
    requires size > 0
    requires Paragraphs(text) != [] && size - 2 < |Paragraphs(text)[0]| <= size
    ensures |Chunks(text, size)| > 0 && Chunks(text, size)[0] == ""
  {
    EmptyFirstChunk(Paragraphs(text), size);
  }

  /** The empty-chunk quirk right after a force-split: the accumulator is empty again, so a
      next paragraph of `size - 1` or `size` characters pushes an empty chunk. */
  lemma EmptyChunkAfterForceSplit(st: Packer, p: string, q: string, size: nat)
    requires size > 0 && |p| > size && size - 2 < |q| <= size
    ensures var st1 := Step(st, p, size);
            var st2 := Step(st1, q, size);
            && st2.runs == st1.runs + [Accumulated("")]
            && Emitted(st2.runs) == Emitted(st1.runs) + [""]
            && st2.current == q
  {
    var st1 := Step(st, p, size);
    EmittedSnoc(st1.runs, Accumulated(""));
  }

  /** A paragraph longer than `size` first pushes a non-empty accumulator as a chunk of its
      own, then pushes its slices, and leaves the accumulator empty. */
  lemma ForceSplitStep(st: Packer, p: string, size: nat)
    requires size > 0 && |p| > size
    ensures var st' := Step(st, p, size);
      && Emitted(st'.runs)
         == Emitted(st.runs) + (if |st.current| > 0 then [st.current] else []) + Slices(p, size)
      && st'.current == ""
  {
    EmittedAppend(st.runs, Flush(st.current));
    EmittedSnoc(st.runs + Flush(st.current), ForceSplit(Slices(p, size)));
    assert Emitted(Flush(st.current)) == if |st.current| > 0 then [st.current] else [];
  }

  /** One more paragraph is one more step of the fold. */
  lemma PackSnoc(ps: seq<string>, k: nat, size: nat)
    requires size > 0 && k < |ps|
    ensures Pack(ps[..k + 1], size) == Step(Pack(ps[..k], size), ps[k], size)
  {
    assert ps[..k + 1][..k] == ps[..k];
  }

  /** Slicing from `pos` takes the slice at `pos`, then slices on from where it ends. */
  lemma SlicesFrom(p: string, pos: nat, size: nat)
    requires size > 0 && pos < |p|
    ensures Slices(p[pos..], size)
            == [p[pos..Min(pos + size, |p|)]] + Slices(p[Min(pos + size, |p|)..], size)
  {
    var rest, end := p[pos..], Min(pos + size, |p|);
    assert rest[..end - pos] == p[pos..end];
    assert rest[end - pos..] == p[end..];
  }

  /** Pushing one run adds its chunks at the end. */
  lemma EmittedSnoc(runs: seq<Run>, r: Run)
    ensures Emitted(runs + [r]) == Emitted(runs) + Emit(r)
  {
    assert (runs + [r])[..|runs|] == runs;
  }

  /** The inner loop of `chunkText`: pushes the consecutive slices of `chunkSize` characters
      of an over-long paragraph, the last one possibly shorter. */
  method PushSlices(chunks: seq<string>, paragraph: string, chunkSize: nat) returns (r: seq<string>)
    requires chunkSize > 0
    ensures r == chunks + Slices(paragraph, chunkSize)
  {
    r := chunks;
    var subParaPos := 0;
    while subParaPos < |paragraph|
      invariant r + Slices(paragraph[Min(subParaPos, |paragraph|)..], chunkSize)
                == chunks + Slices(paragraph, chunkSize)
      decreases |paragraph| - subParaPos
    {
      var end := Min(subParaPos + chunkSize, |paragraph|);
      SlicesFrom(paragraph, subParaPos, chunkSize);
      ghost var slice, later := paragraph[subParaPos..end], Slices(paragraph[end..], chunkSize);
      assert (r + [slice]) + later == r + ([slice] + later);
      r := r + [paragraph[subParaPos..end]];
      subParaPos := subParaPos + chunkSize;
    }
    assert paragraph[Min(subParaPos, |paragraph|)..] == [];
  }

  /** The paragraph loop of `chunkText`, run over the paragraphs already split and
      filtered. */
  method ChunkParagraphs(paragraphs: seq<string>, chunkSize: nat) returns (chunks: seq<string>)
    requires chunkSize > 0
    ensures chunks == Emitted(Packed(paragraphs, chunkSize))
    ensures forall i :: 0 <= i < |chunks| ==> |chunks[i]| <= chunkSize
  {
    chunks := [];
    var currentChunk := "";
    ghost var runs: seq<Run> := [];
    for k := 0 to |paragraphs|
      invariant Pack(paragraphs[..k], chunkSize) == Packer(runs, currentChunk)
      invariant chunks == Emitted(runs)
    {
      var paragraph := paragraphs[k];
      PackSnoc(paragraphs, k, chunkSize);
      if |paragraph| > chunkSize {
        ghost var runs0 := runs + Flush(currentChunk);
        EmittedAppend(runs, Flush(currentChunk));
        assert Emitted(Flush(currentChunk)) == if |currentChunk| > 0 then [currentChunk] else [];
        if |currentChunk| > 0 {
          chunks := chunks + [currentChunk];
          currentChunk := "";
        }
        assert chunks == Emitted(runs0);
        chunks := PushSlices(chunks, paragraph, chunkSize);
        EmittedSnoc(runs0, ForceSplit(Slices(paragraph, chunkSize)));
        runs := runs0 + [ForceSplit(Slices(paragraph, chunkSize))];
        currentChunk := "";
      } else if |currentChunk| + |paragraph| + 2 > chunkSize {
        EmittedSnoc(runs, Accumulated(currentChunk));
        chunks := chunks + [currentChunk];
        runs := runs + [Accumulated(currentChunk)];
        currentChunk := paragraph;
      } else {
        currentChunk := currentChunk + (if |currentChunk| > 0 then ParaSep else "") + paragraph;
      }
    }
    assert paragraphs[..|paragraphs|] == paragraphs;
    EmittedAppend(runs, Flush(currentChunk));
    if |currentChunk| > 0 {
      chunks := chunks + [currentChunk];
    }
    PackedBounded(paragraphs, chunkSize);
  }

  /** `chunkText` (services/geminiService.ts): splits the text at blank lines, drops the
      blank paragraphs and packs the rest into chunks of at most `chunkSize` characters. */
  method ChunkText(text: string, chunkSize: nat) returns (chunks: seq<string>)
    requires chunkSize > 0
    ensures chunks == Chunks(text, chunkSize)
    ensures forall i :: 0 <= i < |chunks| ==> |chunks[i]| <= chunkSize
  {
    var paragraphs := Paragraphs(text);
    chunks := ChunkParagraphs(paragraphs, chunkSize);
  }
}
