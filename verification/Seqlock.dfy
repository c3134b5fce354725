// The clock's seqlock (components/gps_clock/gps_clock_supervisor.c): one writer publishes a
// multi-word snapshot, wait-free readers copy it. Every shared access is one step and steps of
// the writer and the readers interleave in any order.
module Seqlock {

  const RETRY_MAX := 8
  const WRAP := 0x1_0000_0000

  type Words = seq<int>

  // Where gps_clock_publish stands: storing word k of the snapshot inside the odd window, or
  // copying word k into the readers' fallback after it.
  datatype Writer = Idle | Storing(snap: Words, k: nat) | Backing(snap: Words, k: nat)

  // Where a call of gps_clock_get stands. `since` is how many snapshots had been published when
  // the call began, `start` the unbounded step count at the load of s_seq; neither is read by
  // the code, which sees `before` only.
  datatype Reader =
    | Away
    | Loading(since: nat, attempt: nat)
    | Copying(since: nat, attempt: nat, before: nat, start: nat, words: Words)
    | FallingBack(words: Words)
    | Returned(out: Words, clean: bool, since: nat, start: nat)

  // count is the number of bumps of s_seq, whose 32 bits are count % WRAP; history lists every
  // snapshot published so far, the boot value first.
  datatype State = State(count: nat, published: Words, lastGood: Words,
                         writer: Writer, readers: seq<Reader>, history: seq<Words>)

  datatype Action = Publish(snap: Words) | WriterStep | Call(i: nat) | ReaderStep(i: nat)

  // ---- one step

  function WriterNext(s: State): State {
    match s.writer
    case Idle => s
    case Storing(snap, k) =>
      if k < |snap| then
        if k < |s.published| then
          s.(published := s.published[k := snap[k]], writer := Storing(snap, k + 1))
        else s
      else s.(count := s.count + 1, history := s.history + [snap], writer := Backing(snap, 0))
    case Backing(snap, k) =>
      if k < |snap| then
        if k < |s.lastGood| then
          s.(lastGood := s.lastGood[k := snap[k]], writer := Backing(snap, k + 1))
        else s
      else s.(writer := Idle)
  }

  function Retry(since: nat, attempt: nat): Reader {
    if attempt + 1 < RETRY_MAX then Loading(since, attempt + 1) else FallingBack([])
  }

  function ReaderNext(s: State, r: Reader): Reader {
    match r
    case Away => r
    case Loading(since, attempt) =>
      var before := s.count % WRAP;
      if before % 2 == 1 then Retry(since, attempt) else Copying(since, attempt, before, s.count, [])
    case Copying(since, attempt, before, start, words) =>
      if |words| < |s.published| then r.(words := words + [s.published[|words|]])
      else if before == s.count % WRAP then Returned(words, true, since, start)
      else Retry(since, attempt)
    case FallingBack(words) =>
      if |words| < |s.lastGood| then r.(words := words + [s.lastGood[|words|]])
      else Returned(words, false, 0, 0)
    case Returned(_, _, _, _) => r
  }

  function Next(s: State, a: Action): State {
    match a
    case Publish(snap) =>
      if s.writer.Idle? && |snap| == |s.published| then
        s.(count := s.count + 1, writer := Storing(snap, 0))
      else s
    case WriterStep => WriterNext(s)
    case Call(i) =>
      if i < |s.readers| && (s.readers[i].Away? || s.readers[i].Returned?) then
        s.(readers := s.readers[i := Loading(|s.history|, 0)])
      else s
    case ReaderStep(i) =>
      if i < |s.readers| then s.(readers := s.readers[i := ReaderNext(s, s.readers[i])]) else s
  }

  // ---- what every step keeps

  predicate WriterOk(s: State) {
    && |s.history| >= 1
    && |s.lastGood| == |s.published|
    && (match s.writer
        case Idle => Stable(s) && s.lastGood == s.published
        case Backing(snap, k) =>
          Stable(s) && snap == s.published && k <= |snap| && s.lastGood[..k] == snap[..k] && Unbacked(s, k)
        case Storing(snap, k) => Open(s, snap, k))
  }

  // From word k on, the backup is still the snapshot before.
  predicate Unbacked(s: State, k: nat)
    requires k <= |s.lastGood|
  {
    && |s.history| >= 2
    && var previous := s.history[|s.history| - 2];
    |previous| == |s.lastGood| && s.lastGood[k..] == previous[k..]
  }

  // No store in flight: the even count names the published snapshot.
  predicate Stable(s: State)
    requires |s.history| >= 1
  {
    s.count == 2 * (|s.history| - 1) && s.published == s.history[|s.history| - 1]
  }

  // The odd window: the first k words are already the new ones.
  predicate Open(s: State, snap: Words, k: nat)
    requires |s.history| >= 1
  {
    && s.count == 2 * (|s.history| - 1) + 1
    && k <= |snap| == |s.published|
    && s.published[..k] == snap[..k]
    && s.lastGood == s.history[|s.history| - 1]
  }

  predicate ReaderOk(s: State, r: Reader) {
    match r
    case Away => true
    case Loading(since, attempt) => since <= |s.history| && attempt < RETRY_MAX
    case Copying(since, attempt, before, start, words) =>
      && since <= start / 2 + 1 <= |s.history| && start % 2 == 0 && start <= s.count
      && attempt < RETRY_MAX && before == start % WRAP
      && |words| <= |s.published|
      && (start == s.count ==> words == s.published[..|words|] && s.published == s.history[start / 2])
    case FallingBack(words) => |words| <= |s.lastGood|
    case Returned(out, clean, since, start) =>
      clean ==> since <= start / 2 + 1 <= |s.history| && out == s.history[start / 2]
  }

  predicate Inv(s: State) {
    WriterOk(s) && forall i :: 0 <= i < |s.readers| ==> ReaderOk(s, s.readers[i])
  }

  // The writer cannot lap a reader: fewer than 2^32 bumps happen within one read attempt.
  predicate NoLap(s: State) {
    forall i :: 0 <= i < |s.readers| && s.readers[i].Copying? ==> s.count - s.readers[i].start < WRAP
  }

  function Boot(first: Words, readers: nat): State {
    State(0, first, first, Idle, seq(readers, _ => Away), [first])
  }

  lemma BootInv(first: Words, readers: nat)
    ensures Inv(Boot(first, readers))
  {
  }

  lemma PublishInv(s: State, snap: Words)
    requires Inv(s)
    ensures Inv(Next(s, Publish(snap)))
  {
  }

  lemma WriterStepInv(s: State)
    requires Inv(s)
    ensures Inv(WriterNext(s))
  {
    var t := WriterNext(s);
    WriterStepOk(s);
    forall i | 0 <= i < |t.readers|
      ensures ReaderOk(t, t.readers[i])
    {
      ReaderUnmoved(s, s.readers[i]);
    }
  }

  lemma WriterStepOk(s: State)
    requires WriterOk(s)
    ensures WriterOk(WriterNext(s))
  {
  }

  // A writer step never spoils a copy in progress: inside the odd window no copy is current.
  lemma ReaderUnmoved(s: State, r: Reader)
    requires WriterOk(s) && ReaderOk(s, r)
    ensures ReaderOk(WriterNext(s), r)
  {
  }

  lemma ReaderStepInv(s: State, r: Reader)
    requires WriterOk(s) && ReaderOk(s, r)
    requires r.Copying? ==> s.count - r.start < WRAP
    ensures ReaderOk(s, ReaderNext(s, r))
  {
    if r.Loading? && s.count % WRAP % 2 == 0 {
      CurrentCopy(s);
    } else if r.Copying? && |r.words| < |s.published| {
      assert s.published[..|r.words| + 1] == s.published[..|r.words|] + [s.published[|r.words|]];
    } else if r.Copying? && r.before == s.count % WRAP {
      SameResidue(r.start, s.count);
      assert s.published[..|r.words|] == s.published;
    }
  }

  lemma CurrentCopy(s: State)
    requires WriterOk(s) && s.count % WRAP % 2 == 0
    ensures s.count % 2 == 0 && s.count / 2 + 1 == |s.history| && s.published == s.history[s.count / 2]
  {
  }

  lemma SameResidue(a: nat, b: nat)
    requires a <= b && b - a < WRAP && a % WRAP == b % WRAP
    ensures a == b
  {
  }

  lemma StepInv(s: State, a: Action)
    requires Inv(s) && NoLap(s)
    ensures Inv(Next(s, a))
  {
    hide ReaderOk, ReaderNext, WriterNext, WriterOk;
    match a
    case Publish(snap) => PublishInv(s, snap);
    case WriterStep => WriterStepInv(s);
    case Call(i) => CallInv(s, i);
    case ReaderStep(i) => ReaderActionInv(s, i);
  }

  lemma CallInv(s: State, i: nat)
    requires Inv(s)
    ensures Inv(Next(s, Call(i)))
  {
  }

  lemma ReaderActionInv(s: State, i: nat)
    requires Inv(s) && NoLap(s)
    ensures Inv(Next(s, ReaderStep(i)))
  {
    hide ReaderNext;
    var t := Next(s, ReaderStep(i));
    forall j | 0 <= j < |t.readers|
      ensures ReaderOk(t, t.readers[j])
    {
      ReaderStepInv(s, s.readers[j]);
      ReadersReadOnly(s, t, t.readers[j]);
    }
  }

  lemma ReadersReadOnly(s: State, t: State, r: Reader)
    requires t == s.(readers := t.readers) && ReaderOk(s, r)
    ensures ReaderOk(t, r)
  {
  }

  // ---- whole runs

  function After(s: State, run: seq<Action>): State {
    if |run| == 0 then s else Next(After(s, run[..|run| - 1]), run[|run| - 1])
  }

  predicate Unlapped(s: State, run: seq<Action>) {
    forall k :: 0 <= k <= |run| ==> NoLap(After(s, run[..k]))
  }

  lemma {:induction false} RunInv(s: State, run: seq<Action>)
    requires Inv(s) && Unlapped(s, run)
    ensures Inv(After(s, run))
  {
    hide Inv, NoLap, Next;
    if |run| != 0 {
      var most := run[..|run| - 1];
      forall k | 0 <= k <= |most|
        ensures NoLap(After(s, most[..k]))
      {
        assert most[..k] == run[..k];
      }
      RunInv(s, most);
      assert NoLap(After(s, run[..|run| - 1]));
      StepInv(After(s, most), run[|run| - 1]);
    }
  }

  lemma AfterNext(s: State, run: seq<Action>, a: Action)
    ensures After(s, run + [a]) == Next(After(s, run), a)
  {
  }

  // Whatever the interleaving, a call that returns through the clean path returns one snapshot,
  // whole, and none older than the one current when the call began.
  lemma CleanReadIsOneSnapshot(first: Words, readers: nat, run: seq<Action>, i: nat)
    requires Unlapped(Boot(first, readers), run)
    requires i < |After(Boot(first, readers), run).readers|
    ensures OneSnapshot(After(Boot(first, readers), run), i)
  {
    hide After, Unlapped;
    BootInv(first, readers);
    RunInv(Boot(first, readers), run);
    var end := After(Boot(first, readers), run);
    assert ReaderOk(end, end.readers[i]);
    if end.readers[i].Returned? && end.readers[i].clean {
      assert end.readers[i].out == end.history[end.readers[i].start / 2];
    }
  }

  predicate OneSnapshot(s: State, i: nat)
    requires i < |s.readers|
  {
    match s.readers[i]
    case Returned(out, clean, since, _) =>
      clean ==> exists j :: 0 <= j < |s.history| && out == s.history[j] && since <= j + 1
    case _ => true
  }

  // Snapshots are only ever added, each the argument of some publish.
  lemma {:induction false} HistoryIsPublished(s: State, run: seq<Action>)
    requires s.writer.Idle?
    ensures s.history <= After(s, run).history
    ensures forall j :: |s.history| <= j < |After(s, run).history| ==>
              Publish(After(s, run).history[j]) in run
    ensures After(s, run).writer.Storing? ==> Publish(After(s, run).writer.snap) in run
  {
    if |run| != 0 {
      var most, last := run[..|run| - 1], run[|run| - 1];
      HistoryIsPublished(s, most);
      HistoryStep(After(s, most), last);
      assert forall a :: a in most ==> a in run;
      assert last in run;
    }
  }

  lemma HistoryStep(s: State, a: Action)
    ensures s.history <= Next(s, a).history
    ensures |Next(s, a).history| <= |s.history| + 1
    ensures |Next(s, a).history| == |s.history| + 1 ==>
              s.writer.Storing? && Next(s, a).history[|s.history|] == s.writer.snap
    ensures Next(s, a).writer.Storing? ==>
              a == Publish(Next(s, a).writer.snap)
              || (s.writer.Storing? && s.writer.snap == Next(s, a).writer.snap)
  {
  }

  // ---- the retry bound

  function AttemptCost(attempt: nat, words: nat): int {
    (RETRY_MAX - attempt) * (words + 2) + words + 1
  }

  // An upper bound on the steps a call still has to take.
  function Rank(r: Reader, words: nat): int {
    match r
    case Away => 0
    case Loading(_, attempt) => AttemptCost(attempt, words)
    case Copying(_, attempt, _, _, copied) => AttemptCost(attempt + 1, words) + words - |copied| + 1
    case FallingBack(copied) => words - |copied| + 1
    case Returned(_, _, _, _) => 0
  }

  predicate Busy(r: Reader) {
    r.Loading? || r.Copying? || r.FallingBack?
  }

  predicate Bounded(r: Reader, words: nat) {
    match r
    case Loading(_, attempt) => attempt < RETRY_MAX
    case Copying(_, attempt, _, _, copied) => attempt < RETRY_MAX && |copied| <= words
    case FallingBack(copied) => |copied| <= words
    case _ => true
  }

  lemma NextAttemptCost(attempt: nat, words: nat)
    ensures AttemptCost(attempt, words) == AttemptCost(attempt + 1, words) + words + 2
  {
  }

  lemma ReaderStepRank(s: State, r: Reader)
    requires Busy(r) && Bounded(r, |s.published|) && |s.lastGood| == |s.published|
    ensures Bounded(ReaderNext(s, r), |s.published|)
    ensures 0 <= Rank(ReaderNext(s, r), |s.published|) < Rank(r, |s.published|)
  {
    var w := |s.published|;
    match r
    case Loading(_, attempt) =>
      NextAttemptCost(attempt, w);
      CostPositive(attempt + 1, w);
    case Copying(_, attempt, _, _, _) =>
      CostPositive(attempt + 1, w);
    case FallingBack(_) =>
  }

  lemma CostPositive(attempt: nat, words: nat)
    requires attempt <= RETRY_MAX
    ensures AttemptCost(attempt, words) >= words + 1
  {
  }

  function StepsOf(run: seq<Action>, i: nat): nat {
    if |run| == 0 then 0
    else StepsOf(run[..|run| - 1], i) + (if run[|run| - 1] == ReaderStep(i) then 1 else 0)
  }

  lemma SizesKept(s: State, a: Action)
    ensures |Next(s, a).readers| == |s.readers|
    ensures |Next(s, a).published| == |s.published| && |Next(s, a).lastGood| == |s.lastGood|
  {
  }

  lemma OthersKept(s: State, a: Action, i: nat)
    requires i < |s.readers| && a != ReaderStep(i) && a != Call(i)
    requires |Next(s, a).readers| == |s.readers|
    ensures Next(s, a).readers[i] == s.readers[i]
  {
  }

  predicate OnTrack(s: State, t: State, i: nat, taken: nat) {
    && |t.readers| == |s.readers| > i
    && |t.published| == |s.published| && |t.lastGood| == |s.lastGood|
    && (t.readers[i].Returned?
        || (Busy(t.readers[i]) && Bounded(t.readers[i], |s.published|)
            && Rank(t.readers[i], |s.published|) + taken <= AttemptCost(0, |s.published|)))
  }

  lemma {:induction false} CallOnTrack(s: State, run: seq<Action>, i: nat)
    requires i < |s.readers| && s.readers[i].Loading? && s.readers[i].attempt == 0
    requires |s.lastGood| == |s.published| && Call(i) !in run
    ensures OnTrack(s, After(s, run), i, StepsOf(run, i))
  {
    hide Next, Rank, AttemptCost, Bounded;
    if |run| == 0 {
      FirstRank(s.readers[i], |s.published|);
    } else {
      var most, last := run[..|run| - 1], run[|run| - 1];
      CallOnTrack(s, most, i);
      var t := After(s, most);
      SizesKept(t, last);
      if last != ReaderStep(i) {
        OthersKept(t, last, i);
      } else {
        ReaderActs(t, i);
        if Busy(t.readers[i]) {
          ReaderStepRank(t, t.readers[i]);
          StaysInCall(t, t.readers[i]);
        } else {
          ReturnedStays(t, t.readers[i]);
        }
      }
    }
  }

  lemma FirstRank(r: Reader, words: nat)
    requires r.Loading? && r.attempt == 0
    ensures Rank(r, words) == AttemptCost(0, words) && Bounded(r, words)
  {
  }

  lemma ReaderActs(s: State, i: nat)
    requires i < |s.readers| == |Next(s, ReaderStep(i)).readers|
    ensures Next(s, ReaderStep(i)).readers[i] == ReaderNext(s, s.readers[i])
  {
  }

  lemma StaysInCall(s: State, r: Reader)
    requires Busy(r)
    ensures Busy(ReaderNext(s, r)) || ReaderNext(s, r).Returned?
  {
  }

  lemma ReturnedStays(s: State, r: Reader)
    requires r.Returned?
    ensures ReaderNext(s, r) == r
  {
  }

  // Wait-freedom: whatever the writer does, a call returns within RETRY_MAX attempts' worth of
  // its own steps.
  lemma CallReturns(s: State, run: seq<Action>, i: nat)
    requires i < |s.readers| && s.readers[i].Loading? && s.readers[i].attempt == 0
    requires |s.lastGood| == |s.published| && Call(i) !in run
    requires StepsOf(run, i) >= RETRY_MAX * (|s.published| + 2) + |s.published| + 1
    ensures |After(s, run).readers| > i && After(s, run).readers[i].Returned?
  {
    hide After;
    CallOnTrack(s, run, i);
    if Busy(After(s, run).readers[i]) {
      BusyRank(After(s, run).readers[i], |s.published|);
    }
  }

  lemma BusyRank(r: Reader, words: nat)
    requires Busy(r) && Bounded(r, words)
    ensures Rank(r, words) > 0
  {
  }

  // ---- the fallback copy

  // The fallback lies outside the sequence window. It is whole unless a publish completes while
  // it is being copied: stores inside the odd window never reach it.
  lemma {:induction false} FallbackUndisturbed(s: State, run: seq<Action>, i: nat)
    requires Inv(s) && !s.writer.Backing? && Call(i) !in run
    requires |After(s, run).history| == |s.history|
    requires i < |s.readers| && s.readers[i] == FallingBack([])
    ensures FallbackWhole(s, After(s, run), i)
  {
    hide Inv, Next;
    if |run| == 0 {
      BackupCurrent(s);
    } else {
      var most, last := run[..|run| - 1], run[|run| - 1];
      HistoryGrows(s, most);
      HistoryStep(After(s, most), last);
      FallbackUndisturbed(s, most, i);
      var t := After(s, most);
      SizesKept(t, last);
      LastGoodKept(t, last);
      if last != ReaderStep(i) {
        OthersKept(t, last, i);
      } else {
        ReaderActs(t, i);
        if t.readers[i].FallingBack? {
          FallbackStep(t, t.readers[i]);
        } else {
          ReturnedStays(t, t.readers[i]);
        }
      }
    }
  }

  predicate FallbackWhole(s: State, t: State, i: nat) {
    && |s.history| >= 1 && |t.readers| > i && t.lastGood == s.history[|s.history| - 1] && !t.writer.Backing?
    && match t.readers[i]
       case FallingBack(words) => |words| <= |t.lastGood| && words == t.lastGood[..|words|]
       case Returned(out, clean, _, _) => !clean && out == s.history[|s.history| - 1]
       case _ => false
  }

  lemma BackupCurrent(s: State)
    requires Inv(s) && !s.writer.Backing?
    ensures |s.history| >= 1 && s.lastGood == s.history[|s.history| - 1]
  {
  }

  lemma {:induction false} HistoryGrows(s: State, run: seq<Action>)
    ensures |s.history| <= |After(s, run).history|
  {
    hide Next;
    if |run| != 0 {
      HistoryGrows(s, run[..|run| - 1]);
      HistoryStep(After(s, run[..|run| - 1]), run[|run| - 1]);
    }
  }

  lemma LastGoodKept(s: State, a: Action)
    requires !s.writer.Backing? && |Next(s, a).history| == |s.history|
    ensures Next(s, a).lastGood == s.lastGood && !Next(s, a).writer.Backing?
  {
  }

  lemma FallbackStep(s: State, r: Reader)
    requires r.FallingBack? && |r.words| <= |s.lastGood| && r.words == s.lastGood[..|r.words|]
    ensures var t := ReaderNext(s, r);
            if t.FallingBack? then |t.words| <= |s.lastGood| && t.words == s.lastGood[..|t.words|]
            else t == Returned(s.lastGood, false, 0, 0)
  {
  }

  // Otherwise it can mix the two snapshots, when they leave room for a mixture: two words in
  // which they differ.
  predicate DifferTwice(p: Words, q: Words) {
    |p| == |q| && exists a, b :: 0 <= a < b < |p| && p[a] != q[a] && p[b] != q[b]
  }

  predicate Mixture(words: Words, p: Words, q: Words) {
    |words| <= |p| == |q| && forall j :: 0 <= j < |words| ==> words[j] == p[j] || words[j] == q[j]
  }

  lemma MixtureOfNeighbours(words: Words, p: Words, q: Words)
    requires Mixture(words, p, q) && |words| == |p| && !DifferTwice(p, q)
    ensures words == p || words == q
  {
  }

  predicate Torn(t: State, i: nat, p: Words, q: Words) {
    && i < |t.readers| && t.readers[i].Returned? && !t.readers[i].clean
    && t.readers[i].out != p && t.readers[i].out != q
  }

  // No further publish begins.
  predicate Quiet(run: seq<Action>) {
    forall k :: 0 <= k < |run| ==> !run[k].Publish?
  }

  predicate Mixing(t: State, i: nat, p: Words, q: Words) {
    && |t.lastGood| == |p| && Mixture(t.lastGood, p, q) && i < |t.readers|
    && (match t.writer case Idle => true case Storing(snap, _) => snap == q case Backing(snap, _) => snap == q)
    && match t.readers[i]
       case FallingBack(words) => Mixture(words, p, q)
       case Returned(out, clean, _, _) => clean || (|out| == |p| && Mixture(out, p, q))
       case _ => true
  }

  lemma MixingStep(t: State, i: nat, p: Words, q: Words, a: Action)
    requires Mixing(t, i, p, q) && !a.Publish?
    ensures Mixing(Next(t, a), i, p, q)
  {
  }

  lemma {:induction false} OnlyMixtures(s: State, run: seq<Action>, i: nat, p: Words, q: Words)
    requires Mixing(s, i, p, q) && Quiet(run)
    ensures Mixing(After(s, run), i, p, q)
  {
    hide Next, Mixing;
    if |run| != 0 {
      OnlyMixtures(s, run[..|run| - 1], i, p, q);
      MixingStep(After(s, run[..|run| - 1]), i, p, q, run[|run| - 1]);
    }
  }

  // The snapshot a publish under way replaces.
  function Replaced(s: State): Words
    requires Inv(s) && !s.writer.Idle?
  {
    if s.writer.Storing? then s.history[|s.history| - 1] else s.history[|s.history| - 2]
  }

  // With a publish under way as the fallback copy begins, storing or already backing up, some
  // continuation returns words equal to neither snapshot if and only if the two differ in at
  // least two words and the backup is not finished.
  lemma FallbackTearsIff(s: State, i: nat)
    requires Inv(s) && !s.writer.Idle? && i < |s.readers| && s.readers[i] == FallingBack([])
    ensures
      (exists run :: Quiet(run) && Torn(After(s, run), i, Replaced(s), s.writer.snap))
      <==> DifferTwice(Replaced(s), s.writer.snap) && s.lastGood != s.writer.snap
  {
    hide Inv, After, Replaced;
    var before, snap := Replaced(s), s.writer.snap;
    PublishUnderWay(s);
    if DifferTwice(before, snap) && s.lastGood != snap {
      var run := TearingRun(s, i);
    }
    if run :| Quiet(run) && Torn(After(s, run), i, before, snap) {
      OnlyMixtures(s, run, i, before, snap);
      if !DifferTwice(before, snap) {
        MixtureOfNeighbours(After(s, run).readers[i].out, before, snap);
      }
      if s.lastGood == snap {
        OnlyMixtures(s, run, i, snap, snap);
      }
    }
  }

  lemma PublishUnderWay(s: State)
    requires Inv(s) && !s.writer.Idle?
    ensures s.writer.k <= |s.writer.snap| == |s.lastGood| == |s.published| == |Replaced(s)|
    ensures Mixture(s.lastGood, Replaced(s), s.writer.snap)
    ensures s.writer.Storing? ==> s.lastGood == Replaced(s)
    ensures s.writer.Backing? ==> s.lastGood[..s.writer.k] == s.writer.snap[..s.writer.k]
  {
    if s.writer.Backing? {
      var k, previous := s.writer.k, Replaced(s);
      forall j | 0 <= j < |s.lastGood|
        ensures s.lastGood[j] == previous[j] || s.lastGood[j] == s.writer.snap[j]
      {
        if j < k {
          assert s.lastGood[j] == s.lastGood[..k][j];
        } else {
          assert s.lastGood[j] == s.lastGood[k..][j - k];
        }
      }
    }
  }

  // A backup that is itself a mixture is copied as it is. Otherwise the reader copies past the
  // first difference, the writer finishes, the reader copies on.
  lemma TearingRun(s: State, i: nat) returns (run: seq<Action>)
    requires Inv(s) && !s.writer.Idle? && i < |s.readers| && s.readers[i] == FallingBack([])
    requires DifferTwice(Replaced(s), s.writer.snap) && s.lastGood != s.writer.snap
    ensures Quiet(run) && Torn(After(s, run), i, Replaced(s), s.writer.snap)
  {
    hide Inv, After, Next, Replaced, Mixture;
    PublishUnderWay(s);
    var p, q := s.lastGood, s.writer.snap;
    run := [];
    AfterNothing(s);
    if p != Replaced(s) {
      run := CopyWords(s, run, i, |p|);
      NothingCopied(p, |p|);
      run := ReturnCopied(s, run, i);
    } else {
      var a, b :| 0 <= a < b < |p| && p[a] != q[a] && p[b] != q[b];
      run := CopyWords(s, run, i, a + 1);
      NothingCopied(p, a + 1);
      run := FinishPublish(s, run);
      run := CopyWords(s, run, i, |q|);
      run := ReturnCopied(s, run, i);
      Spliced(p, q, a, b);
    }
  }

  lemma NothingCopied(p: Words, n: nat)
    requires n <= |p|
    ensures [] + p[0..n] == p[..n] && |p[..n]| == n && p[..|p|] == p
  {
  }

  // Neither snapshot: the head of one and the tail of the other, cut between two differences.
  lemma Spliced(p: Words, q: Words, a: nat, b: nat)
    requires a < b < |p| == |q| && p[a] != q[a] && p[b] != q[b]
    ensures
      var out := p[..a + 1] + q[a + 1..|q|];
      out != p && out != q
  {
    var out := p[..a + 1] + q[a + 1..|q|];
    assert out[a] == p[a] && out[b] == q[b];
  }

  lemma AfterNothing(s: State)
    ensures After(s, []) == s
  {
  }

  lemma Advance(s: State, run: seq<Action>, a: Action) returns (more: seq<Action>)
    requires Quiet(run) && !a.Publish?
    ensures Quiet(more) && After(s, more) == Next(After(s, run), a)
  {
    hide Next, After;
    more := run + [a];
    AfterNext(s, run, a);
  }

  lemma {:induction false} CopyWords(s: State, run: seq<Action>, i: nat, upto: nat) returns (more: seq<Action>)
    requires Quiet(run) && i < |After(s, run).readers| && After(s, run).readers[i].FallingBack?
    requires |After(s, run).readers[i].words| <= upto <= |After(s, run).lastGood|
    ensures Quiet(more)
    ensures
      var t := After(s, run);
      var words := t.readers[i].words;
      After(s, more) == t.(readers := t.readers[i := FallingBack(words + t.lastGood[|words|..upto])])
    decreases upto - |After(s, run).readers[i].words|
  {
    hide After;
    var t := After(s, run);
    var words := t.readers[i].words;
    if |words| == upto {
      more := run;
      assert words + t.lastGood[|words|..upto] == words;
      assert t.readers[i := t.readers[i]] == t.readers;
    } else {
      var next := Advance(s, run, ReaderStep(i));
      assert After(s, next).readers[i].words == words + [t.lastGood[|words|]];
      more := CopyWords(s, next, i, upto);
      assert words + [t.lastGood[|words|]] + t.lastGood[|words| + 1..upto] == words + t.lastGood[|words|..upto];
    }
  }

  lemma ReturnCopied(s: State, run: seq<Action>, i: nat) returns (more: seq<Action>)
    requires Quiet(run) && i < |After(s, run).readers| && After(s, run).readers[i].FallingBack?
    requires |After(s, run).readers[i].words| == |After(s, run).lastGood|
    ensures Quiet(more) && i < |After(s, more).readers|
    ensures After(s, more).readers[i] == Returned(After(s, run).readers[i].words, false, 0, 0)
  {
    hide After;
    more := Advance(s, run, ReaderStep(i));
  }

  // The writer runs on alone: store, commit, back up.
  lemma FinishPublish(s: State, run: seq<Action>) returns (more: seq<Action>)
    requires Quiet(run) && !After(s, run).writer.Idle?
    requires
      var t := After(s, run);
      t.writer.k <= |t.writer.snap| == |t.lastGood| == |t.published|
      && (t.writer.Backing? ==> t.lastGood[..t.writer.k] == t.writer.snap[..t.writer.k])
    ensures Quiet(more) && After(s, more).lastGood == After(s, run).writer.snap
    ensures After(s, more).readers == After(s, run).readers
  {
    hide After;
    more := run;
    if After(s, run).writer.Storing? {
      more := StoreWords(s, run);
      more := Advance(s, more, WriterStep);
    }
    more := BackWords(s, more);
  }

  lemma {:induction false} StoreWords(s: State, run: seq<Action>) returns (more: seq<Action>)
    requires Quiet(run) && After(s, run).writer.Storing?
    requires
      var t := After(s, run);
      t.writer.k <= |t.writer.snap| == |t.lastGood| == |t.published|
    ensures Quiet(more)
    ensures
      var t, u := After(s, run), After(s, more);
      u.writer == Storing(t.writer.snap, |t.writer.snap|) && u.lastGood == t.lastGood && u.readers == t.readers
    decreases |After(s, run).writer.snap| - After(s, run).writer.k
  {
    hide After;
    if After(s, run).writer.k == |After(s, run).writer.snap| {
      more := run;
    } else {
      more := Advance(s, run, WriterStep);
      more := StoreWords(s, more);
    }
  }

  lemma {:induction false} BackWords(s: State, run: seq<Action>) returns (more: seq<Action>)
    requires Quiet(run) && After(s, run).writer.Backing?
    requires
      var t := After(s, run);
      t.writer.k <= |t.writer.snap| == |t.lastGood| && t.lastGood[..t.writer.k] == t.writer.snap[..t.writer.k]
    ensures Quiet(more)
    ensures
      var t, u := After(s, run), After(s, more);
      u.lastGood == t.writer.snap && u.readers == t.readers
    decreases |After(s, run).writer.snap| - After(s, run).writer.k
  {
    hide After;
    var t := After(s, run);
    if t.writer.k == |t.writer.snap| {
      more := run;
      assert t.lastGood == t.lastGood[..t.writer.k];
      assert t.writer.snap == t.writer.snap[..t.writer.k];
    } else {
      var k := t.writer.k;
      more := Advance(s, run, WriterStep);
      assert t.lastGood[k := t.writer.snap[k]][..k + 1] == t.writer.snap[..k + 1];
      more := BackWords(s, more);
    }
  }

  // Such states are reached from boot: a publish opens the odd window and stalls, and the
  // reader's eight loads all see it.
  function Stalled(first: Words, snap: Words, r: Reader): State {
    State(1, first, first, Storing(snap, 0), [r], [first])
  }

  lemma StallAndSpin(first: Words, snap: Words) returns (run: seq<Action>)
    requires |first| == |snap|
    ensures After(Boot(first, 1), run) == Stalled(first, snap, FallingBack([]))
    ensures forall k :: 0 <= k < |run| && run[k].Publish? ==> run[k] == Publish(snap)
  {
    hide After;
    var s := Boot(first, 1);
    run := [Call(0), Publish(snap)];
    StallOpens(first, snap);
    for k := 0 to 7
      invariant After(s, run) == Stalled(first, snap, Loading(1, k))
      invariant forall j :: 0 <= j < |run| && run[j].Publish? ==> run[j] == Publish(snap)
    {
      AfterNext(s, run, ReaderStep(0));
      run := run + [ReaderStep(0)];
    }
    AfterNext(s, run, ReaderStep(0));
    run := run + [ReaderStep(0)];
  }

  lemma StallOpens(first: Words, snap: Words)
    requires |first| == |snap|
    ensures After(Boot(first, 1), [Call(0), Publish(snap)]) == Stalled(first, snap, Loading(1, 0))
  {
    var s := Boot(first, 1);
    AfterNothing(s);
    AfterNext(s, [], Call(0));
    AfterNext(s, [Call(0)], Publish(snap));
    assert [] + [Call(0)] == [Call(0)];
    assert [Call(0)] + [Publish(snap)] == [Call(0), Publish(snap)];
  }

  lemma {:induction false} AfterConcat(s: State, p: seq<Action>, q: seq<Action>)
    ensures After(s, p + q) == After(After(s, p), q)
    decreases |q|
  {
    hide Next;
    if |q| == 0 {
      assert p + q == p;
    } else {
      assert (p + q)[..|p| + |q| - 1] == p + q[..|q| - 1];
      AfterConcat(s, p, q[..|q| - 1]);
    }
  }

  // From boot, publishing only snap: any two snapshots that differ in two words can be returned
  // as a mixture, although every copy and store is whole.
  lemma FallbackCanTear(first: Words, snap: Words) returns (run: seq<Action>)
    requires DifferTwice(first, snap)
    ensures forall k :: 0 <= k < |run| && run[k].Publish? ==> run[k] == Publish(snap)
    ensures Torn(After(Boot(first, 1), run), 0, first, snap)
  {
    hide After;
    var start := StallAndSpin(first, snap);
    var s := Stalled(first, snap, FallingBack([]));
    var rest := TearingRun(s, 0);
    AfterConcat(Boot(first, 1), start, rest);
    run := start + rest;
  }
}
