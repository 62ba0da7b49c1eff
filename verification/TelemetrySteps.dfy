/** The encoder's loop one slot at a time: what the finished stream will be, seen from the middle of
    the loop, where zero codes are still provisional and the current code and nibble still open. */
module TelemetrySteps {
  import opened Bytes
  import opened TelemetryStream

  /** The loop's variables: `zero` counts the zero codes at the end of `out`, the first of which was
      opened at slot codeIndex; bit counts the shifts of code_bit. */
  datatype State = State(out: seq<Byte>, i: nat, bit: nat, zero: nat, codeIndex: nat, codePos: nat,
                         half: bool, nibPos: nat)

  /** The open presence code and the open nibble get their final values. */
  ghost function Patched(st: State, code: int, nibble: int): seq<int>
    requires st.codePos < |st.out| && (st.half ==> st.nibPos < |st.out|)
  {
    var coded: seq<int> := st.out[..st.codePos] + [st.out[st.codePos] + code] + st.out[st.codePos + 1..];
    if st.half then coded[st.nibPos := st.out[st.nibPos] + nibble] else coded
  }

  /** The zero codes at the end of out, opened at codeIndex, stand for slots none of which is
      transmitted; the k coded slots from i on complete the last code, whose next bit is b. */
  ghost predicate Provisional(job: Job, st: State, b: nat, total: seq<int>)
    requires job.Valid() && b <= 7
  {
    && 0 < st.zero <= |st.out| && !st.half
    && st.codeIndex <= st.i && st.codeIndex < job.N() && job.Coded(st.codeIndex)
    && (forall j :: st.codeIndex <= j < st.i && j < job.N() ==> !job.tx[j])
    && total == st.out[..|st.out| - st.zero] + Emit(job, st.codeIndex)
    && if st.zero == 1 && b < 7 then
         && st.codePos == |st.out| - 1 && st.out[st.codePos] == 0
         && Code(job, st.codeIndex, 7) == Pow2(b) * Code(job, st.i, 7 - b)
         && Data(job, st.codeIndex, 7, false) == Data(job, st.i, 7 - b, false)
         && After(job, st.codeIndex, 7) == After(job, st.i, 7 - b)
       else Code(job, st.codeIndex, 7) == 0
  }

  /** A code with bits set is open; the k coded slots from i on complete it from bit b. */
  ghost predicate Open(job: Job, st: State, b: nat, total: seq<int>)
    requires job.Valid() && b <= 7
  {
    && st.zero == 0 && st.codePos < |st.out| && st.out[st.codePos] < Pow2(b)
    && (st.half ==> st.codePos < st.nibPos < |st.out| && st.out[st.nibPos] < 16)
    && (st.half ==> forall j :: st.i <= j < job.N() ==> job.fields[j].fmt == FMT_U4)
    && total == Patched(st, Pow2(b) * Code(job, st.i, 7 - b), 16 * High(job, st.i, 7 - b))
                + Data(job, st.i, 7 - b, st.half) + Emit(job, After(job, st.i, 7 - b))
  }

  /** Between two slots. */
  ghost predicate Promises(job: Job, st: State, total: seq<int>)
    requires job.Valid()
  {
    && st.i <= job.N() && st.bit <= 6
    && if st.zero > 0 then Provisional(job, st, st.bit + 1, total)
       else if st.bit == 6 then total == st.out + Emit(job, st.i)
       else Open(job, st, st.bit + 1, total)
  }

  /** On a coded slot whose bit is selected. */
  ghost predicate Selected(job: Job, st: State, total: seq<int>)
    requires job.Valid()
  {
    && st.i < job.N() && job.Coded(st.i) && st.bit <= 6
    && if st.zero > 0 then Provisional(job, st, st.bit, total) else Open(job, st, st.bit, total)
  }

  lemma StepUncoded(job: Job, st: State, total: seq<int>)
    requires job.Valid() && Promises(job, st, total) && st.i < job.N() && !job.Coded(st.i)
    ensures Promises(job, st.(i := st.i + 1), total)
  {
    hide Emit, Data, Code, High, After, Pow2, FirstBit, Zoned, Patched;
    UncodedEmit(job, st.i);
    if st.zero == 0 && st.bit < 6 {
      SamePatch(st, st.(i := st.i + 1), Pow2(st.bit + 1) * Code(job, st.i, 6 - st.bit),
                16 * High(job, st.i, 6 - st.bit));
    }
    UncodedSlot(job, st.i, if st.bit < 6 then 6 - st.bit else 1, st.half);
    if st.bit == 6 {
      EndOfCode(job, st.i, st.half);
      EndOfCode(job, st.i + 1, st.half);
    }
  }

  lemma EndOfCode(job: Job, i: nat, half: bool)
    requires job.Valid()
    ensures Code(job, i, 0) == 0 && High(job, i, 0) == 0 && Data(job, i, 0, half) == [] && After(job, i, 0) == i
  {
  }

  lemma StepOpen(job: Job, st: State, total: seq<int>)
    requires job.Valid() && Promises(job, st, total) && st.i < job.N() && job.Coded(st.i) && st.bit == 6
    ensures Selected(job, st.(out := st.out + [0], bit := 0, half := false, codePos := |st.out|,
                              zero := st.zero + 1, codeIndex := if st.zero == 0 then st.i else st.codeIndex),
                     total)
  {
    hide Emit, Data, Code, High, After, FirstBit, Zoned;
    EndOfCode(job, st.i, false);
    var out := st.out + [0];
    assert out[..|out| - (st.zero + 1)] == st.out[..|st.out| - st.zero];
  }

  lemma StepSelect(job: Job, st: State, total: seq<int>)
    requires job.Valid() && Promises(job, st, total) && st.i < job.N() && job.Coded(st.i) && st.bit < 6
    ensures Selected(job, st.(bit := st.bit + 1), total)
  {
    hide Emit, Data, Code, High, After, Pow2, FirstBit, Zoned, Patched;
    if st.zero == 0 {
      SamePatch(st, st.(bit := st.bit + 1), Pow2(st.bit + 1) * Code(job, st.i, 6 - st.bit),
                16 * High(job, st.i, 6 - st.bit));
    }
  }

  lemma Doubled(b: nat, c: nat)
    ensures Pow2(b) * (2 * c) == Pow2(b + 1) * c
    ensures Pow2(b) * (1 + 2 * c) == Pow2(b) + Pow2(b + 1) * c
    ensures Pow2(b + 1) == 2 * Pow2(b)
  {
  }

  lemma PatchNothing(st: State)
    requires st.codePos < |st.out| && (st.half ==> st.codePos < st.nibPos < |st.out|)
    ensures Patched(st, 0, 0) == st.out
  {
  }

  lemma StepSilent(job: Job, st: State, total: seq<int>)
    requires job.Valid() && Selected(job, st, total) && !job.tx[st.i]
    ensures Promises(job, st.(i := st.i + 1), total)
  {
    hide Emit, Data, Code, High, After, Pow2, FirstBit, Zoned;
    SilentSlot(job, st.i, 7 - st.bit, st.half);
    EndOfCode(job, st.i + 1, st.half);
    Doubled(st.bit, Code(job, st.i + 1, 6 - st.bit));
    if st.zero == 0 {
      SilentOpen(job, st, total);
    }
  }

  lemma SilentOpen(job: Job, st: State, total: seq<int>)
    requires job.Valid() && st.i < job.N() && job.Coded(st.i) && !job.tx[st.i]
    requires st.bit <= 6 && Open(job, st, st.bit, total)
    ensures var next := st.(i := st.i + 1);
            if st.bit == 6 then total == st.out + Emit(job, st.i + 1) else Open(job, next, st.bit + 1, total)
  {
    hide Emit, Data, Code, High, After, Pow2, FirstBit, Zoned, Patched;
    var next := st.(i := st.i + 1);
    SilentSlot(job, st.i, 7 - st.bit, st.half);
    EndOfCode(job, st.i + 1, st.half);
    Doubled(st.bit, Code(job, st.i + 1, 6 - st.bit));
    SamePatch(st, next, Pow2(st.bit) * Code(job, st.i, 7 - st.bit), 16 * High(job, st.i, 7 - st.bit));
    if st.bit == 6 {
      PatchNothing(st);
    }
  }

  lemma SamePatch(a: State, b: State, code: int, nibble: int)
    requires a.out == b.out && a.codePos == b.codePos && a.half == b.half && a.nibPos == b.nibPos
    requires a.codePos < |a.out| && (a.half ==> a.nibPos < |a.out|)
    ensures Patched(a, code, nibble) == Patched(b, code, nibble)
  {
  }

  // ---------- a transmitted slot ----------

  /** A finished code leaves nothing open. */
  lemma OpenPromises(job: Job, st: State, total: seq<int>)
    requires job.Valid() && st.i <= job.N() && st.bit <= 6 && Open(job, st, st.bit + 1, total)
    ensures Promises(job, st, total)
  {
    hide Emit, Data, Code, High, After, Pow2, FirstBit, Zoned, Patched;
    if st.bit == 6 {
      EndOfCode(job, st.i, st.half);
      PatchNothing(st);
    }
  }

  /** The first bit set in a code makes it permanent. */
  lemma FirstMark(job: Job, st: State, total: seq<int>)
    requires job.Valid() && Selected(job, st, total) && job.tx[st.i] && st.zero == 1
    ensures Open(job, st.(zero := 0), st.bit, total)
  {
    hide Emit, Data, Code, High, After, FirstBit, Zoned;
    SentSlot(job, st.i, 7 - st.bit);
    OddCode(st.bit, Code(job, st.i, 7 - st.bit), Code(job, st.i + 1, 6 - st.bit));
    CodeEmitted(job, st.codeIndex);
    PatchedLast(st, Code(job, st.codeIndex, 7), 16 * High(job, st.i, 7 - st.bit));
    hide Patched, Pow2;
  }

  lemma PatchedLast(st: State, code: int, nibble: int)
    requires |st.out| > 0 && st.codePos == |st.out| - 1 && !st.half && st.out[st.codePos] == 0
    ensures Patched(st.(zero := 0), code, nibble) == st.out[..|st.out| - 1] + [code]
  {
  }

  lemma OddCode(b: nat, c: nat, d: nat)
    requires c == 1 + 2 * d
    ensures Pow2(b) * c != 0
  {
  }

  /** The open code with the bit of slot st.i set. */
  function Marked(st: State): seq<int>
    requires st.codePos < |st.out|
  {
    st.out[..st.codePos] + [st.out[st.codePos] + Pow2(st.bit)] + st.out[st.codePos + 1..]
  }

  /** Setting the bit moves its share of the code from the promise into the stream. */
  lemma MarkPatch(st: State, marked: seq<Byte>, code: int, rest: int, nibble: int)
    requires st.codePos < |st.out| && (st.half ==> st.codePos < st.nibPos < |st.out|)
    requires marked == Marked(st) && code == Pow2(st.bit) + rest
    ensures |marked| == |st.out| && marked[st.codePos] == st.out[st.codePos] + Pow2(st.bit)
    ensures forall p :: 0 <= p < |marked| && p != st.codePos ==> marked[p] == st.out[p]
    ensures Patched(st, code, nibble) == Patched(st.(out := marked), rest, nibble)
  {
    hide Pow2;
    assert |marked| == |st.out|;
    var next := st.(out := marked);
    forall p | 0 <= p < |marked| ensures Patched(st, code, nibble)[p] == Patched(next, rest, nibble)[p] {
      PatchedAt(st, code, nibble, p);
      PatchedAt(next, rest, nibble, p);
      hide Patched;
    }
    PatchedAt(st, code, nibble, st.codePos);
    PatchedAt(next, rest, nibble, st.codePos);
  }

  lemma PatchedAt(st: State, code: int, nibble: int, p: nat)
    requires st.codePos < |st.out| && (st.half ==> st.codePos < st.nibPos < |st.out|) && p < |st.out|
    ensures var a := Patched(st, code, nibble);
            && |a| == |st.out|
            && a[p] == st.out[p] + if p == st.codePos then code else if st.half && p == st.nibPos then nibble else 0
  {
  }

  lemma PatchAppend(st: State, next: State, x: seq<Byte>, code: int)
    requires st.codePos < |st.out| && !st.half
    requires next == st.(out := st.out + x, i := next.i)
    ensures Patched(next, code, 0) == Patched(st, code, 0) + x
  {
  }

  lemma PatchHalf(st: State, next: State, v: Byte, code: int, high: int)
    requires st.codePos < |st.out| && !st.half
    requires next == st.(out := st.out + [v], half := true, nibPos := |st.out|, i := next.i)
    ensures Patched(next, code, high) == Patched(st, code, 0) + [v + high]
  {
  }

  lemma PatchFull(st: State, next: State, v: int, code: int)
    requires st.codePos < st.nibPos < |st.out| && st.half
    requires next.codePos == st.codePos && !next.half && |next.out| == |st.out|
    requires next.out == st.out[..st.nibPos] + [st.out[st.nibPos] + v] + st.out[st.nibPos + 1..]
    ensures Patched(next, code, 0) == Patched(st, code, v)
  {
  }

  lemma MarkBlock(job: Job, st: State, marked: seq<Byte>, total: seq<int>)
    requires job.Valid() && st.i < job.N() && job.tx[st.i] && job.fields[st.i].fmt != FMT_U4 && !st.half
    requires st.bit <= 6 && Open(job, st, st.bit, total) && marked == Marked(st)
    ensures Promises(job, st.(out := marked + job.blocks[st.i], i := st.i + 1), total)
  {
    hide Emit, Data, Code, High, After, Pow2, FirstBit, Zoned, Patched, Marked;
    var k := 6 - st.bit;
    SentSlot(job, st.i, k + 1);
    Doubled(st.bit, Code(job, st.i + 1, k));
    var rest := Pow2(st.bit + 1) * Code(job, st.i + 1, k);
    MarkPatch(st, marked, Pow2(st.bit) * Code(job, st.i, k + 1), rest, 0);
    var next := st.(out := marked + job.blocks[st.i], i := st.i + 1);
    PatchAppend(st.(out := marked), next, job.blocks[st.i], rest);
    NoNibble(st, Pow2(st.bit) * Code(job, st.i, k + 1), 16 * High(job, st.i, k + 1));
    NoNibble(next, rest, 16 * High(job, st.i + 1, k));
    OpenPromises(job, next, total);
  }

  /** Without a half-filled byte the nibble does not matter. */
  lemma NoNibble(st: State, code: int, nibble: int)
    requires st.codePos < |st.out| && !st.half
    ensures Patched(st, code, nibble) == Patched(st, code, 0)
  {
  }

  lemma MarkNibble(job: Job, st: State, marked: seq<Byte>, total: seq<int>)
    requires job.Valid() && st.i < job.N() && job.tx[st.i] && job.fields[st.i].fmt == FMT_U4 && !st.half
    requires st.bit <= 6 && Open(job, st, st.bit, total) && marked == Marked(st)
    ensures Promises(job, st.(out := marked + [Nibble(job, st.i)], half := true, nibPos := |marked|, i := st.i + 1),
                     total)
  {
    hide Emit, Data, Code, High, After, Pow2, FirstBit, Zoned, Patched, Marked, Nibble;
    OnlyNibblesFollow(job, st.i);
    var k := 6 - st.bit;
    SentSlot(job, st.i, k + 1);
    Doubled(st.bit, Code(job, st.i + 1, k));
    var rest := Pow2(st.bit + 1) * Code(job, st.i + 1, k);
    var high := 16 * High(job, st.i + 1, k);
    MarkPatch(st, marked, Pow2(st.bit) * Code(job, st.i, k + 1), rest, 0);
    var next := st.(out := marked + [Nibble(job, st.i)], half := true, nibPos := |marked|, i := st.i + 1);
    PatchHalf(st.(out := marked), next, Nibble(job, st.i), rest, high);
    NoNibble(st, Pow2(st.bit) * Code(job, st.i, k + 1), 16 * High(job, st.i, k + 1));
    OpenPromises(job, next, total);
  }

  lemma MarkShared(job: Job, st: State, marked: seq<Byte>, filled: seq<Byte>, total: seq<int>)
    requires job.Valid() && st.i < job.N() && job.tx[st.i] && st.half
    requires st.bit <= 6 && Open(job, st, st.bit, total) && marked == Marked(st)
    requires |filled| == |marked| && st.nibPos < |marked|
    requires filled == marked[..st.nibPos] + [marked[st.nibPos] + 16 * Nibble(job, st.i)] + marked[st.nibPos + 1..]
    ensures Promises(job, st.(out := filled, half := false, i := st.i + 1), total)
  {
    hide Emit, Data, Code, High, After, Pow2, FirstBit, Zoned, Patched, Marked;
    assert job.fields[st.i].fmt == FMT_U4;
    var k := 6 - st.bit;
    SentSlot(job, st.i, k + 1);
    Doubled(st.bit, Code(job, st.i + 1, k));
    var rest := Pow2(st.bit + 1) * Code(job, st.i + 1, k);
    var nibble := 16 * Nibble(job, st.i);
    MarkPatch(st, marked, Pow2(st.bit) * Code(job, st.i, k + 1), rest, nibble);
    var next := st.(out := filled, half := false, i := st.i + 1);
    PatchFull(st.(out := marked), next, nibble, rest);
    NoNibble(next, rest, 16 * High(job, st.i + 1, k));
    OpenPromises(job, next, total);
  }

  /** Two or more zero codes give way to a distance and the slot alone. */
  lemma Jump(job: Job, st: State, base: seq<Byte>, total: seq<int>)
    requires job.Valid() && Selected(job, st, total) && job.tx[st.i] && st.zero >= 2
    requires base == st.out[..|st.out| - st.zero] + Offset(st.i - st.codeIndex)
    ensures st.i - st.codeIndex >= 7
    ensures job.fields[st.i].fmt != FMT_U4 ==>
              Promises(job, st.(out := base + job.blocks[st.i], bit := 6, zero := 0, half := false, i := st.i + 1), total)
    ensures job.fields[st.i].fmt == FMT_U4 ==>
              Promises(job, st.(out := base + [Nibble(job, st.i)], bit := 6, zero := 0, half := true, nibPos := |base|,
                                i := st.i + 1), total)
  {
    hide Emit, Data, Code, High, After, Pow2, FirstBit, Zoned, Patched, Offset;
    JumpEmitted(job, st.codeIndex, st.i);
    SentSlot(job, st.i, 1);
    EndOfCode(job, st.i + 1, true);
    EndOfCode(job, st.i + 1, false);
  }

  /** Once every slot is behind, only the provisional zero codes separate the stream from its final form. */
  lemma Finished(job: Job, st: State, total: seq<int>)
    requires job.Valid() && Promises(job, st, total) && st.i == job.N()
    ensures st.zero <= |st.out| && total == st.out[..|st.out| - st.zero]
  {
    hide Emit, Data, Code, High, After, Pow2, FirstBit, Zoned, Patched;
    if st.zero > 0 {
      NothingMore(job, st.codeIndex);
    } else {
      NothingAtEnd(job, 6 - st.bit, st.half);
      if st.bit < 6 {
        PatchNothing(st);
      }
    }
  }

  lemma NothingMore(job: Job, i: nat)
    requires job.Valid() && forall j :: i <= j < job.N() ==> !job.tx[j]
    ensures Emit(job, i) == []
  {
  }

  lemma NothingAtEnd(job: Job, k: nat, half: bool)
    requires job.Valid()
    ensures var n := job.N();
            && Code(job, n, k) == 0 && High(job, n, k) == 0 && Data(job, n, k, half) == []
            && After(job, n, k) == n && Emit(job, n) == []
  {
  }

  lemma Begin(job: Job)
    requires job.Valid()
    ensures Promises(job, State([], 0, 6, 0, 0, 0, false, 0), Emit(job, 0))
  {
  }

  lemma SelectedBounds(job: Job, st: State, total: seq<int>)
    requires job.Valid() && Selected(job, st, total) && job.tx[st.i] && st.zero >= 2
    ensures st.zero <= |st.out| && st.codeIndex < st.i && !st.half
  {
    JumpEmitted(job, st.codeIndex, st.i);
  }

  /** With at most one zero code, the open code takes the slot's bit without overflow. */
  lemma MarkReady(job: Job, st: State, total: seq<int>)
    requires job.Valid() && Selected(job, st, total) && job.tx[st.i] && st.zero <= 1
    ensures Open(job, st.(zero := 0), st.bit, total)
    ensures st.codePos < |st.out| && st.out[st.codePos] + Pow2(st.bit) < 128
    ensures job.fields[st.i].fmt != FMT_U4 ==> !st.half
  {
    hide Emit, Data, Code, High, After, FirstBit, Zoned, Patched;
    if st.zero == 1 {
      FirstMark(job, st, total);
    } else {
      assert st.(zero := 0) == st;
    }
    PowerGrows(st.bit + 1, 7);
    assert Pow2(7) == 128;
  }

  /** A half-filled byte has room for another nibble. */
  lemma NibbleRoom(job: Job, st: State, total: seq<int>, marked: seq<Byte>)
    requires job.Valid() && st.i < job.N() && st.bit <= 6 && Open(job, st, st.bit, total)
    requires marked == Marked(st)
    ensures |marked| == |st.out|
    ensures st.half ==> st.nibPos < |marked| && marked[st.nibPos] < 16
  {
  }
}
