/** The lossy concurrent bit set: racing set() calls split into their atomic
    steps, and the scan that reports and clears the held bits. */
module BitSets {
  import opened Bytes
  import opened ByteSets

  const BITS: nat := 64    // bits in a word
  const LINE: nat := 64    // words in a line

  /** A machine word, bit by bit. */
  type Word = w: seq<bool> | |w| == 64 witness seq(64, _ => false)

  /** The word is not zero. */
  predicate Any(w: Word) { exists b :: 0 <= b < 64 && w[b] }

  /** The place of a bit: its word and its position in the word. */
  datatype Place = Place(word: nat, bit: nat)

  function PlaceOf(idx: nat): (p: Place)
    ensures p.bit < 64 && 64 * p.word + p.bit == idx
  {
    Place(idx / 64, idx % 64)
  }

  predicate Holds(words: seq<Word>, p: Place) { p.word < |words| && p.bit < 64 && words[p.word][p.bit] }

  /** Every non-zero word lies in a marked line. */
  predicate LinesCover(lines: seq<U8>, words: seq<Word>) {
    |words| == LINE * |lines| && forall w :: 0 <= w < |words| && Any(words[w]) ==> lines[w / 64] != 0
  }

  // ------------------------------------------------------ racing set() calls

  /** A set() call in flight: its line is marked, or it has also loaded its word. */
  datatype Call = Marked(place: Place) | Loaded(place: Place, word: Word)

  datatype State = State(
    lines: seq<U8>,
    words: seq<Word>,
    calls: map<nat, Call>,     // per thread
    requested: set<Place>,     // bits asked for since the last scan
    finished: set<Place>)      // bits whose call has returned

  datatype Step = MarkLine(thread: nat, idx: nat) | LoadWord(thread: nat) | StoreWord(thread: nat)

  predicate Shape(s: State) {
    && |s.words| == LINE * |s.lines| && s.words != []
    && forall t :: t in s.calls ==> s.calls[t].place.word < |s.words| && s.calls[t].place.bit < 64
  }

  /** One atomic step of one thread; steps that are not enabled do nothing. */
  function Next(s: State, step: Step): (s': State)
    requires Shape(s)
    ensures Shape(s')
  {
    match step
    case MarkLine(t, idx) =>
      if t in s.calls then s
      else
        var p := PlaceOf(idx % (BITS * |s.words|));
        s.(lines := s.lines[p.word / 64 := 1], calls := s.calls[t := Marked(p)], requested := s.requested + {p})
    case LoadWord(t) =>
      if t !in s.calls || s.calls[t].Loaded? then s
      else
        var p := s.calls[t].place;
        s.(calls := s.calls[t := Loaded(p, s.words[p.word])])
    case StoreWord(t) =>
      if t !in s.calls || s.calls[t].Marked? then s
      else
        var p, word := s.calls[t].place, s.calls[t].word;
        var done := s.(calls := s.calls - {t}, finished := s.finished + {p});
        if word[p.bit] then done
        else done.(words := s.words[p.word := word[p.bit := true]])
  }

  function Run(s: State, steps: seq<Step>): (s': State)
    requires Shape(s)
    ensures Shape(s')
  {
    if steps == [] then s else Next(Run(s, steps[..|steps| - 1]), steps[|steps| - 1])
  }

  /** A state between scans in which no call is in flight. */
  predicate Quiet(s: State) {
    Shape(s) && LinesCover(s.lines, s.words) && s.calls == map[] && s.requested == {} && s.finished == {}
  }

  /** The bit was there at the start or was asked for since. */
  predicate Known(start: State, s: State, p: Place) { Holds(start.words, p) || p in s.requested }

  ghost predicate CallInv(start: State, s: State, c: Call)
    requires Shape(s) && c.place.word < |s.words|
  {
    && c.place in s.requested && s.lines[c.place.word / 64] != 0
    && (c.Loaded? ==>
          && (forall b :: 0 <= b < 64 && c.word[b] ==> Known(start, s, Place(c.place.word, b)))
          && (Any(c.word) ==> Any(s.words[c.place.word])))
  }

  ghost predicate Inv(start: State, s: State) {
    && Shape(s) && |s.words| == |start.words| && LinesCover(s.lines, s.words)
    && (forall p :: Holds(s.words, p) ==> Known(start, s, p))
    && (forall t :: t in s.calls ==> CallInv(start, s, s.calls[t]))
    && (forall p :: p in s.finished ==> p.word < |s.words| && Any(s.words[p.word]))
  }

  lemma MarkLinePreserves(start: State, s: State, t: nat, idx: nat)
    requires Inv(start, s)
    ensures Inv(start, Next(s, MarkLine(t, idx)))
  {
  }

  lemma LoadWordPreserves(start: State, s: State, t: nat)
    requires Inv(start, s)
    ensures Inv(start, Next(s, LoadWord(t)))
  {
    if t in s.calls && s.calls[t].Marked? {
      var p := s.calls[t].place;
      forall b | 0 <= b < 64 && s.words[p.word][b] ensures Known(start, s, Place(p.word, b)) {
        assert Holds(s.words, Place(p.word, b));
      }
    }
  }

  lemma StoreWordPreserves(start: State, s: State, t: nat)
    requires Inv(start, s)
    ensures Inv(start, Next(s, StoreWord(t)))
  {
    if t in s.calls && s.calls[t].Loaded? {
      var s' := Next(s, StoreWord(t));
      var c := s.calls[t];
      assert c.word[c.place.bit := true][c.place.bit];
      forall p | Holds(s'.words, p) ensures Known(start, s', p) {
        if p.word == c.place.word && s'.words != s.words {
          assert Known(start, s, Place(c.place.word, p.bit));
        } else {
          assert Holds(s.words, p);
        }
      }
    }
  }

  lemma {:induction false} RunInv(start: State, steps: seq<Step>)
    requires Quiet(start)
    ensures Inv(start, Run(start, steps))
  {
    if steps != [] {
      var s := Run(start, steps[..|steps| - 1]);
      RunInv(start, steps[..|steps| - 1]);
      match steps[|steps| - 1] {
        case MarkLine(t, idx) => MarkLinePreserves(start, s, t, idx);
        case LoadWord(t) => LoadWordPreserves(start, s, t);
        case StoreWord(t) => StoreWordPreserves(start, s, t);
      }
    }
  }

  /** In every interleaving of any number of set() calls: no bit appears that was
      not asked for, every non-zero word has its line marked, and a call that has
      returned leaves its word non-zero. */
  lemma RacingSetsAreSafe(start: State, steps: seq<Step>)
    requires Quiet(start)
    ensures var s := Run(start, steps);
            && (forall p :: Holds(s.words, p) ==> Holds(start.words, p) || p in s.requested)
            && LinesCover(s.lines, s.words)
            && (forall p :: p in s.finished ==> p.word < |s.words| && Any(s.words[p.word]))
  {
    RunInv(start, steps);
  }

  // ------------------------------------------------- exactly when bits are lost

  /** The set holds exactly what it held at the start and the bits of the finished calls. */
  ghost predicate Lossless(start: State, s: State) {
    forall p: Place :: Holds(s.words, p) <==> Holds(start.words, p) || p in s.finished
  }

  /** A store drops a bit: it writes, and memory holds a bit, other than the call's own,
      that the loaded word lacks. */
  predicate Drops(s: State, step: Step)
    requires Shape(s)
  {
    step.StoreWord? && step.thread in s.calls && s.calls[step.thread].Loaded? &&
    var c := s.calls[step.thread];
    !c.word[c.place.bit] && exists b | 0 <= b < 64 :: b != c.place.bit && s.words[c.place.word][b] && !c.word[b]
  }

  /** A bit disappears in a step exactly when the step drops one. */
  lemma DropsExact(s: State, step: Step)
    requires Shape(s)
    ensures Drops(s, step) <==> exists p: Place :: Holds(s.words, p) && !Holds(Next(s, step).words, p)
  {
    var s' := Next(s, step);
    if Drops(s, step) {
      var c := s.calls[step.thread];
      var b: nat :| b < 64 && b != c.place.bit && s.words[c.place.word][b] && !c.word[b];
      var p := Place(c.place.word, b);
      assert Holds(s.words, p) && !Holds(s'.words, p);
    }
    if p: Place :| Holds(s.words, p) && !Holds(s'.words, p) {
      assert s'.words != s.words;
      var c := s.calls[step.thread];
      assert p.word == c.place.word && !c.word[p.bit] && p.bit != c.place.bit;
    }
  }

  /** What the calls in flight have loaded is still in memory. */
  ghost predicate LoadsHeld(s: State)
    requires Shape(s)
  {
    forall t, b | t in s.calls && s.calls[t].Loaded? && 0 <= b < 64 && s.calls[t].word[b] ::
      s.words[s.calls[t].place.word][b]
  }

  lemma StoreAddsItsBit(s: State, t: nat)
    requires Shape(s) && LoadsHeld(s) && t in s.calls && s.calls[t].Loaded? && !Drops(s, StoreWord(t))
    ensures forall p: Place :: Holds(Next(s, StoreWord(t)).words, p) <==> Holds(s.words, p) || p == s.calls[t].place
  {
    var c, s' := s.calls[t], Next(s, StoreWord(t));
    var w := c.place.word;
    assert s'.words[w][c.place.bit];
    forall b | 0 <= b < 64 && b != c.place.bit ensures s'.words[w][b] <==> s.words[w][b] {
      if s'.words != s.words {
        assert s'.words[w] == c.word[c.place.bit := true];
      }
    }
    assert forall v | 0 <= v < |s.words| && v != w :: s'.words[v] == s.words[v];
  }

  lemma LosslessStep(start: State, s: State, step: Step)
    requires Shape(s) && Lossless(start, s) && LoadsHeld(s) && !Drops(s, step)
    ensures Lossless(start, Next(s, step)) && LoadsHeld(Next(s, step))
  {
    if step.StoreWord? && step.thread in s.calls && s.calls[step.thread].Loaded? {
      var s' := Next(s, step);
      StoreAddsItsBit(s, step.thread);
      forall t, b | t in s'.calls && s'.calls[t].Loaded? && 0 <= b < 64 && s'.calls[t].word[b]
        ensures s'.words[s'.calls[t].place.word][b]
      {
        assert s'.calls[t] == s.calls[t];
        assert Holds(s.words, Place(s.calls[t].place.word, b));
        assert Holds(s'.words, Place(s.calls[t].place.word, b));
      }
    }
  }

  /** No step of the run drops a bit. */
  predicate DropsNothing(start: State, steps: seq<Step>)
    requires Shape(start)
  {
    steps == [] ||
    var n := |steps| - 1;
    DropsNothing(start, steps[..n]) && !Drops(Run(start, steps[..n]), steps[n])
  }

  /** The set is lossless after every step of the run. */
  ghost predicate LosslessThroughout(start: State, steps: seq<Step>)
    requires Shape(start)
  {
    Lossless(start, Run(start, steps)) && (steps == [] || LosslessThroughout(start, steps[..|steps| - 1]))
  }

  lemma {:induction false} LosslessRun(start: State, steps: seq<Step>)
    requires Quiet(start) && DropsNothing(start, steps)
    ensures LosslessThroughout(start, steps) && LoadsHeld(Run(start, steps))
  {
    if steps != [] {
      var n := |steps| - 1;
      LosslessRun(start, steps[..n]);
      LosslessStep(start, Run(start, steps[..n]), steps[n]);
    }
  }

  lemma LossyStep(start: State, s: State, step: Step)
    requires Shape(s) && Lossless(start, s) && Drops(s, step)
    ensures !Lossless(start, Next(s, step))
  {
    DropsExact(s, step);
    FinishedGrows(s, step);
  }

  /** In a run of any number of racing calls nothing is lost at any time exactly when no
      store drops a bit. */
  lemma {:induction false} LossExact(start: State, steps: seq<Step>)
    requires Quiet(start)
    ensures LosslessThroughout(start, steps) <==> DropsNothing(start, steps)
  {
    if DropsNothing(start, steps) {
      LosslessRun(start, steps);
    } else {
      var n := |steps| - 1;
      LossExact(start, steps[..n]);
      var s := Run(start, steps[..n]);
      if Lossless(start, s) && Drops(s, steps[n]) {
        LossyStep(start, s, steps[n]);
      }
    }
  }

  lemma FinishedGrows(s: State, step: Step)
    requires Shape(s)
    ensures s.finished <= Next(s, step).finished
  {
  }

  /** No two calls have loaded the same word. */
  predicate Exclusive(s: State) {
    forall t, u | t in s.calls && u in s.calls && t != u && s.calls[t].Loaded? && s.calls[u].Loaded? ::
      s.calls[t].place.word != s.calls[u].place.word
  }

  /** Every call in flight has loaded what memory still holds. */
  ghost predicate LoadsCurrent(s: State)
    requires Shape(s)
  {
    forall t | t in s.calls && s.calls[t].Loaded? :: s.calls[t].word == s.words[s.calls[t].place.word]
  }

  lemma CurrentStep(s: State, step: Step)
    requires Shape(s) && Exclusive(s) && LoadsCurrent(s)
    ensures LoadsCurrent(Next(s, step)) && !Drops(s, step)
  {
  }

  /** At no time have two calls loaded the same word. */
  predicate ExclusiveThroughout(start: State, steps: seq<Step>)
    requires Shape(start)
  {
    Exclusive(Run(start, steps)) && (steps == [] || ExclusiveThroughout(start, steps[..|steps| - 1]))
  }

  lemma {:induction false} CurrentRun(start: State, steps: seq<Step>)
    requires Quiet(start) && ExclusiveThroughout(start, steps)
    ensures LoadsCurrent(Run(start, steps)) && DropsNothing(start, steps)
  {
    if steps != [] {
      var n := |steps| - 1;
      CurrentRun(start, steps[..n]);
      CurrentStep(Run(start, steps[..n]), steps[n]);
    }
  }

  /** Calls that never have the same word loaded at the same time lose nothing, however
      else they overlap: the set holds exactly the old bits and those of the finished calls. */
  lemma ExclusiveCallsLoseNothing(start: State, steps: seq<Step>)
    requires Quiet(start) && ExclusiveThroughout(start, steps)
    ensures Lossless(start, Run(start, steps))
  {
    CurrentRun(start, steps);
    LosslessRun(start, steps);
  }

  /** A call that is not interrupted adds exactly its bit. */
  lemma UninterruptedSet(s: State, t: nat, idx: nat)
    requires Shape(s) && t !in s.calls
    ensures var s' := Run(s, [MarkLine(t, idx), LoadWord(t), StoreWord(t)]);
            forall p :: Holds(s'.words, p) <==> Holds(s.words, p) || p == PlaceOf(idx % (BITS * |s.words|))
  {
    var a, b, c := MarkLine(t, idx), LoadWord(t), StoreWord(t);
    var p := PlaceOf(idx % (BITS * |s.words|));
    assert [a, b, c] == [a] + [b, c] && [a][..0] == [];
    RunTwo(s, [a], b, c);
    var s1 := Next(s, a);
    var s2 := Next(s1, b);
    assert s2.calls[t] == Loaded(p, s.words[p.word]);
    assert Run(s, [a, b, c]) == Next(s2, c);
  }

  /** set() is lossy: two calls race, both return, and one of the bits is gone. */
  lemma RacingSetsLoseABit(s: State)
    requires Quiet(s) && !Holds(s.words, Place(0, 0)) && !Holds(s.words, Place(0, 1))
    ensures var marked := Next(Next(s, MarkLine(1, 0)), MarkLine(2, 1));
            var loaded := Next(Next(marked, LoadWord(1)), LoadWord(2));
            var s' := Next(Next(loaded, StoreWord(1)), StoreWord(2));
            && s'.finished == {Place(0, 0), Place(0, 1)} && s'.calls == map[]
            && !Holds(s'.words, Place(0, 0)) && Holds(s'.words, Place(0, 1))
  {
    SmallModulo(0, BITS * |s.words|);
    SmallModulo(1, BITS * |s.words|);
    var marked := Next(Next(s, MarkLine(1, 0)), MarkLine(2, 1));
    assert marked.calls == map[1 := Marked(Place(0, 0)), 2 := Marked(Place(0, 1))];
    StaleStores(marked, s.words[0]);
  }

  lemma SmallModulo(i: nat, n: nat)
    requires i < n
    ensures i % n == i
  {
  }

  lemma StaleStores(s: State, w: Word)
    requires Shape(s) && s.words[0] == w && !w[0] && !w[1] && s.finished == {}
    requires s.calls == map[1 := Marked(Place(0, 0)), 2 := Marked(Place(0, 1))]
    ensures var s' := Next(Next(Next(Next(s, LoadWord(1)), LoadWord(2)), StoreWord(1)), StoreWord(2));
            s'.words[0] == w[1 := true] && s'.finished == {Place(0, 0), Place(0, 1)} && s'.calls == map[]
  {
    var loaded := Next(Next(s, LoadWord(1)), LoadWord(2));
    assert loaded.calls == map[1 := Loaded(Place(0, 0), w), 2 := Loaded(Place(0, 1), w)];
    var stored := Next(loaded, StoreWord(1));
    assert stored.calls == map[2 := Loaded(Place(0, 1), w)];
  }

  lemma RunTwo(s: State, steps: seq<Step>, a: Step, b: Step)
    requires Shape(s)
    ensures Run(s, steps + [a, b]) == Next(Next(Run(s, steps), a), b)
  {
    assert (steps + [a, b])[..|steps| + 1] == steps + [a];
    assert (steps + [a])[..|steps|] == steps;
  }

  // --------------------------------------------------------------- the scan

  /** The indices of the bits of `w` below bit `n`. */
  function BitsBelow(w: Word, base: nat, n: nat): seq<nat>
    requires n <= |w|
  {
    if n == 0 then []
    else if w[n - 1] then BitsBelow(w, base, n - 1) + [base + n - 1]
    else BitsBelow(w, base, n - 1)
  }

  function WordBits(w: Word, base: nat): seq<nat> { BitsBelow(w, base, |w|) }

  /** The indices of all held bits in the words [from, to). */
  function HeldBits(words: seq<Word>, from: nat, to: nat): seq<nat>
    requires to <= |words|
    decreases if from < to then to - from else 0
  {
    if from >= to then [] else WordBits(words[from], 64 * from) + HeldBits(words, from + 1, to)
  }

  predicate ClearedWords(s: seq<Word>, t: seq<Word>, from: nat, to: nat) {
    |t| == |s| && forall i :: 0 <= i < |s| ==> if from <= i < to then !Any(t[i]) else t[i] == s[i]
  }

  lemma {:induction false} BitsBelowSkip(w: Word, base: nat, a: nat, b: nat)
    requires a <= b <= |w| && forall i :: a <= i < b ==> !w[i]
    ensures BitsBelow(w, base, a) == BitsBelow(w, base, b)
  {
    if a < b {
      BitsBelowSkip(w, base, a, b - 1);
    }
  }

  lemma {:induction false} HeldBitsSplit(words: seq<Word>, a: nat, b: nat, c: nat)
    requires a <= b <= c <= |words|
    ensures HeldBits(words, a, c) == HeldBits(words, a, b) + HeldBits(words, b, c)
    decreases b - a
  {
    if a < b {
      HeldBitsSplit(words, a + 1, b, c);
    }
  }

  lemma {:induction false} HeldBitsOfZeros(words: seq<Word>, from: nat, to: nat)
    requires to <= |words| && forall i :: from <= i < to ==> !Any(words[i])
    ensures HeldBits(words, from, to) == []
    decreases if from < to then to - from else 0
  {
    if from < to {
      BitsBelowSkip(words[from], 64 * from, 0, |words[from]|);
      HeldBitsOfZeros(words, from + 1, to);
    }
  }

  lemma {:induction false} HeldBitsDependOnRange(s: seq<Word>, t: seq<Word>, from: nat, to: nat)
    requires to <= |s| && to <= |t| && forall i :: from <= i < to ==> s[i] == t[i]
    ensures HeldBits(s, from, to) == HeldBits(t, from, to)
    decreases if from < to then to - from else 0
  {
    if from < to {
      HeldBitsDependOnRange(s, t, from + 1, to);
    }
  }

  predicate Ascending(s: seq<nat>) { forall i, j :: 0 <= i < j < |s| ==> s[i] < s[j] }

  predicate Within(s: seq<nat>, lo: nat, hi: nat) { forall i :: 0 <= i < |s| ==> lo <= s[i] < hi }

  lemma AscendingConcat(a: seq<nat>, b: seq<nat>, lo: nat, mid: nat, hi: nat)
    requires Ascending(a) && Ascending(b) && Within(a, lo, mid) && Within(b, mid, hi) && lo <= mid <= hi
    ensures Ascending(a + b) && Within(a + b, lo, hi)
  {
  }

  lemma {:induction false} BitsBelowAscend(w: Word, base: nat, n: nat)
    requires n <= |w|
    ensures Ascending(BitsBelow(w, base, n)) && Within(BitsBelow(w, base, n), base, base + n)
  {
    if n > 0 {
      BitsBelowAscend(w, base, n - 1);
      AscendingConcat(BitsBelow(w, base, n - 1), [base + n - 1], base, base + n - 1, base + n);
    }
  }

  lemma {:induction false} BitsBelowMember(w: Word, base: nat, n: nat, bit: nat)
    requires n <= |w| && bit < 64
    ensures base + bit in BitsBelow(w, base, n) <==> bit < n && w[bit]
  {
    if n > 0 {
      BitsBelowMember(w, base, n - 1, bit);
    }
  }

  /** The list is ascending, so no bit is in it twice. */
  lemma {:induction false} HeldBitsAscend(words: seq<Word>, from: nat, to: nat)
    requires from <= to <= |words|
    ensures Ascending(HeldBits(words, from, to)) && Within(HeldBits(words, from, to), 64 * from, 64 * to)
    decreases if from < to then to - from else 0
  {
    if from < to {
      BitsBelowAscend(words[from], 64 * from, |words[from]|);
      HeldBitsAscend(words, from + 1, to);
      AscendingConcat(WordBits(words[from], 64 * from), HeldBits(words, from + 1, to),
                      64 * from, 64 * (from + 1), 64 * to);
    }
  }

  /** The list holds exactly the held bits. */
  lemma {:induction false} HeldBitsExact(words: seq<Word>, from: nat, to: nat, p: Place)
    requires from <= to <= |words| && p.bit < 64
    ensures 64 * p.word + p.bit in HeldBits(words, from, to) <==> from <= p.word < to && Holds(words, p)
    decreases if from < to then to - from else 0
  {
    if from < to {
      HeldBitsExact(words, from + 1, to, p);
      WordBitsExact(words[from], from, p);
    }
  }

  lemma WordBitsExact(w: Word, n: nat, p: Place)
    requires p.bit < 64
    ensures 64 * p.word + p.bit in WordBits(w, 64 * n) <==> p.word == n && w[p.bit]
  {
    BitsBelowAscend(w, 64 * n, |w|);
    BitsBelowMember(w, 64 * n, |w|, p.bit);
    var x := 64 * p.word + p.bit;
    if x in WordBits(w, 64 * n) {
      assert 64 * n <= x < 64 * n + 64;
    }
  }

  /** __builtin_ctzll: the lowest set bit. */
  method LowestBit(w: Word) returns (b: nat)
    requires Any(w)
    ensures b < 64 && w[b] && forall i :: 0 <= i < b ==> !w[i]
  {
    b := 0;
    while !w[b]
      invariant b < 64 && forall i :: 0 <= i < b ==> !w[i]
      decreases 64 - b
    {
      b := b + 1;
    }
  }

  /** The inner loop: report the lowest bit and clear it, until the word is zero. */
  method ReportWord(word: Word, base: nat) returns (calls: seq<nat>)
    requires Any(word)
    ensures calls == WordBits(word, base)
  {
    calls := [];
    var w := word;
    ghost var next: nat := 0;
    while Any(w)
      invariant next <= 64
      invariant forall i :: 0 <= i < 64 ==> w[i] == (i >= next && word[i])
      invariant calls == BitsBelow(word, base, next)
      decreases 64 - next
    {
      var bit := LowestBit(w);
      BitsBelowSkip(word, base, next, bit);
      calls := calls + [base + bit];
      w := w[bit := false];
      next := bit + 1;
    }
    BitsBelowSkip(word, base, next, |word|);
  }

  class ConcurrentBitSet {
    const lines: ConcurrentByteSet
    const words: array<Word>

    function Repr(): set<object> { {lines.bytes, words} }

    ghost predicate Valid()
      reads Repr()
    {
      lines.bytes.Length > 0 && lines.bytes.Length % 64 == 0 && LinesCover(lines.bytes[..], words[..])
    }

    constructor (numLines: nat)
      requires numLines > 0 && numLines % 64 == 0
      ensures Valid() && fresh(Repr()) && HeldBits(words[..], 0, words.Length) == []
    {
      lines := new ConcurrentByteSet(numLines);
      words := new Word[LINE * numLines](_ => seq(64, _ => false));
      new;
      assert forall i :: 0 <= i < words.Length ==> !Any(words[i]);
      HeldBitsOfZeros(words[..], 0, words.Length);
    }

    /** set() when no other call runs: exactly one bit is added. */
    method Set(idx: nat)
      requires Valid()
      modifies Repr()
      ensures Valid()
      ensures forall p :: Holds(words[..], p) <==> Holds(old(words[..]), p) || p == PlaceOf(idx % (BITS * words.Length))
    {
      var i := idx % (BITS * words.Length);
      var wordIdx, bit := i / 64, i % 64;
      lines.Set(wordIdx / 64, 1);
      ghost var marked := lines.bytes[..];
      var word := words[wordIdx];
      if !word[bit] {
        words[wordIdx] := word[bit := true];
      }
      assert word[bit] ==> word[bit := true] == word;
      assert words[..] == old(words[..])[wordIdx := word[bit := true]];
    }

    method Get(idx: nat) returns (b: bool)
      requires Valid()
      ensures b == Holds(words[..], PlaceOf(idx % (BITS * words.Length)))
    {
      var i := idx % (BITS * words.Length);
      b := words[i / 64][i % 64];
    }

    /** Reports and clears the words [from, to). */
    method ScanWords(from: nat, to: nat) returns (calls: seq<nat>)
      requires from <= to <= words.Length
      modifies words
      ensures calls == HeldBits(old(words[..]), from, to)
      ensures ClearedWords(old(words[..]), words[..], from, to)
    {
      ghost var was := words[..];
      calls := [];
      for i := from to to
        invariant calls == HeldBits(was, from, i)
        invariant ClearedWords(was, words[..], from, i)
      {
        HeldBitsSplit(was, from, i, i + 1);
        assert words[i] == words[..][i] == was[i];
        if Any(words[i]) {
          var more := ReportWord(words[i], 64 * i);
          words[i] := seq(64, _ => false);
          calls := calls + more;
        } else {
          BitsBelowSkip(was[i], 64 * i, 0, |was[i]|);
        }
      }
    }

    method ScanLine(line: nat, ghost was: seq<Word>) returns (more: seq<nat>)
      requires LINE * line + LINE <= words.Length && ClearedWords(was, words[..], 0, LINE * line)
      modifies words
      ensures ClearedWords(was, words[..], 0, LINE * line + LINE)
      ensures HeldBits(was, 0, LINE * line) + more == HeldBits(was, 0, LINE * line + LINE)
    {
      var begin := LINE * line;
      HeldBitsSplit(was, 0, begin, begin + LINE);
      HeldBitsDependOnRange(was, words[..], begin, begin + LINE);
      more := ScanWords(begin, begin + LINE);
    }

    /** Reports every held bit, visiting marked lines only, and empties the set. */
    method ForEachNonZeroBit() returns (calls: seq<nat>)
      requires Valid()
      modifies Repr()
      ensures Valid() && calls == HeldBits(old(words[..]), 0, words.Length)
      ensures HeldBits(words[..], 0, words.Length) == []
      ensures forall i | 0 <= i < lines.bytes.Length :: lines.bytes[i] == 0
    {
      ghost var marks, was := lines.bytes[..], words[..];
      var n := lines.bytes.Length;
      var regions := lines.ForEachNonZeroByte(0, n);
      assert forall i | 0 <= i < n :: lines.bytes[..][i] == 0;
      calls := ScanLines(regions, n, marks);
      assert forall i :: 0 <= i < words.Length ==> !Any(words[..][i]);
      HeldBitsOfZeros(words[..], 0, words.Length);
    }

    /** The callbacks of the scan of the lines. */
    method ScanLines(regions: seq<(nat, U8)>, ghost n: nat, ghost marks: seq<U8>) returns (calls: seq<nat>)
      requires n == |marks| && LinesCover(marks, words[..]) && regions == NonZero(marks, 0, n)
      modifies words
      ensures calls == HeldBits(old(words[..]), 0, words.Length)
      ensures ClearedWords(old(words[..]), words[..], 0, words.Length)
    {
      ghost var was := words[..];
      calls := [];
      ghost var done: nat := 0;
      for j := 0 to |regions|
        invariant done <= n && regions[j..] == NonZero(marks, done, n)
        invariant calls == HeldBits(was, 0, LINE * done) && ClearedWords(was, words[..], 0, LINE * done)
      {
        FirstNonZero(marks, done, n);
        assert regions[j..][0] == regions[j] && regions[j..][1..] == regions[j + 1..];
        var line := regions[j].0;
        SkipLines(marks, was, words[..], done, line);
        var more := ScanLine(line, was);
        calls := calls + more;
        done := line + 1;
      }
      FirstNonZero(marks, done, n);
      SkipLines(marks, was, words[..], done, n);
    }
  }

  /** Unmarked lines hold no bits, so skipping them loses nothing. */
  lemma SkipLines(marks: seq<U8>, was: seq<Word>, now: seq<Word>, a: nat, b: nat)
    requires LinesCover(marks, was) && a <= b <= |marks| && ZeroIn(marks, a, b)
    requires ClearedWords(was, now, 0, LINE * a)
    ensures HeldBits(was, 0, LINE * b) == HeldBits(was, 0, LINE * a)
    ensures ClearedWords(was, now, 0, LINE * b)
  {
    forall i | LINE * a <= i < LINE * b ensures !Any(was[i]) {
      assert a <= i / 64 < b;
    }
    HeldBitsOfZeros(was, LINE * a, LINE * b);
    HeldBitsSplit(was, 0, LINE * a, LINE * b);
  }

  predicate Reports(calls: seq<nat>, p: Place) { p.bit < 64 && 64 * p.word + p.bit in calls }

  /** What a scan reports after any race: only bits that were asked for, and at
      least one bit of the word of every finished call. */
  lemma ScanOfRace(start: State, steps: seq<Step>)
    requires Quiet(start)
    ensures var s := Run(start, steps); var calls := HeldBits(s.words, 0, |s.words|);
            && Ascending(calls)
            && (forall p :: Reports(calls, p) <==> Holds(s.words, p))
            && (forall p :: Reports(calls, p) ==> Known(start, s, p))
            && (forall p :: p in s.finished ==> exists q: Place :: q.word == p.word && Reports(calls, q))
  {
    var s := Run(start, steps);
    var calls := HeldBits(s.words, 0, |s.words|);
    RacingSetsAreSafe(start, steps);
    HeldBitsAscend(s.words, 0, |s.words|);
    forall p ensures Reports(calls, p) <==> Holds(s.words, p) {
      if p.bit < 64 {
        HeldBitsExact(s.words, 0, |s.words|, p);
      }
    }
    forall p | p in s.finished ensures exists q: Place :: q.word == p.word && Reports(calls, q) {
      var b: nat :| b < 64 && s.words[p.word][b];
      assert Reports(calls, Place(p.word, b));
    }
  }

  /** The scan itself, run on the memory a race has left. */
  method ScanAfterRace(bits: ConcurrentBitSet, ghost start: State, ghost steps: seq<Step>) returns (calls: seq<nat>)
    requires Quiet(start) && bits.lines.bytes.Length % 64 == 0
    requires bits.lines.bytes[..] == Run(start, steps).lines && bits.words[..] == Run(start, steps).words
    modifies bits.Repr()
    ensures bits.Valid() && HeldBits(bits.words[..], 0, bits.words.Length) == []
    ensures forall p :: Reports(calls, p) ==> Known(start, Run(start, steps), p)
    ensures forall p :: p in Run(start, steps).finished ==> exists q: Place :: q.word == p.word && Reports(calls, q)
  {
    RacingSetsAreSafe(start, steps);
    ScanOfRace(start, steps);
    calls := bits.ForEachNonZeroBit();
  }
}
