/** Reading the result struct from memory while the firmware is still writing it.

    The firmware's stores take effect in program order; the debug probe reads the words of the
    transmitted prefix in increasing order of address. Their steps interleave in any way. */
module TornRead {
  import opened Words
  import opened BenchRecord
  import opened Firmware

  /** The stores of a whole run, and then only the heartbeat counter is stored to. */
  ghost predicate Continues(run: seq<Store>, log: seq<Store>)
  {
    && Published(run) && |run| <= |log| && log[..|run|] == run
    && forall i | |run| <= i < |log| :: log[i].at == COUNTER_AT
  }

  /** How many stores have happened, and the words read so far. */
  datatype State = State(done: nat, image: seq<U32>)

  ghost predicate Next(log: seq<Store>, s: State, t: State)
  {
    || (s.done < |log| && t == s.(done := s.done + 1))
    || (|s.image| < PREFIX_WORDS && s.done <= |log|
        && t == s.(image := s.image + [WordAfter(log[..s.done], |s.image|)]))
  }

  /** One read of the whole prefix, started at any moment of the run. */
  ghost predicate Reading(log: seq<Store>, states: seq<State>)
  {
    && states != [] && states[0].image == [] && states[0].done <= |log|
    && forall i | 0 < i < |states| :: Next(log, states[i - 1], states[i])
  }

  ghost predicate EqualsFinal(run: seq<Store>, image: seq<U32>, k: nat)
  {
    k < |image| && image[k] == WordAfter(run, k)
  }

  lemma {:induction false} QuietStores(log: seq<Store>, n: nat, m: nat, k: nat)
    requires n <= m <= |log| && forall i | n <= i < m :: log[i].at != k
    ensures WordAfter(log[..m], k) == WordAfter(log[..n], k)
  {
    if n < m {
      QuietStores(log, n, m - 1, k);
      assert log[..m][..m - 1] == log[..m - 1];
    }
  }

  /** The state reads as complete only after the last store of the run. */
  lemma {:induction false} StateIsLast(run: seq<Store>, d: nat)
    requires Published(run) && d < |run|
    ensures WordAfter(run[..d], STATE_AT) != STATE_TEST_COMPLETE
  {
    if d > 0 {
      assert run[..d][..d - 1] == run[..d - 1];
      assert run[d - 1] == run[..|run| - 1][d - 1];
      StateIsLast(run, d - 1);
    }
  }

  lemma StateIsNotYet(run: seq<Store>, log: seq<Store>, d: nat)
    requires Continues(run, log) && d < |run|
    ensures WordAfter(log[..d], STATE_AT) != STATE_TEST_COMPLETE
  {
    StateIsLast(run, d);
    assert log[..d] == run[..d];
  }

  /** After the run every word but the counter stays as the run left it. */
  lemma SettledWords(run: seq<Store>, log: seq<Store>, d: nat, k: nat)
    requires Continues(run, log) && |run| <= d <= |log| && k != COUNTER_AT
    ensures WordAfter(log[..d], k) == WordAfter(run, k)
  {
    QuietStores(log, |run|, d, k);
  }

  /** Once the probe has seen the state complete, everything it reads is final. */
  ghost predicate Safe(run: seq<Store>, log: seq<Store>, s: State)
  {
    && s.done <= |log|
    && (|s.image| > STATE_AT && s.image[STATE_AT] == STATE_TEST_COMPLETE ==>
          s.done >= |run| && forall k | STATE_AT <= k < |s.image| && k != COUNTER_AT :: EqualsFinal(run, s.image, k))
  }

  lemma StepIsSafe(run: seq<Store>, log: seq<Store>, s: State, t: State)
    requires Continues(run, log) && Safe(run, log, s) && Next(log, s, t)
    ensures Safe(run, log, t)
  {
    var k := |s.image|;
    if t.image != s.image && k >= STATE_AT && t.image[STATE_AT] == STATE_TEST_COMPLETE {
      if k == STATE_AT && s.done < |run| {
        StateIsNotYet(run, log, s.done);
      } else if k != COUNTER_AT {
        assert s.done >= |run|;
        SettledWords(run, log, s.done, k);
      }
      assert forall j | STATE_AT <= j < k && j != COUNTER_AT :: EqualsFinal(run, s.image, j) ==> EqualsFinal(run, t.image, j);
    }
  }

  lemma {:induction false} EveryStateIsSafe(run: seq<Store>, log: seq<Store>, states: seq<State>, i: nat)
    requires Continues(run, log) && Reading(log, states) && i < |states|
    ensures Safe(run, log, states[i])
  {
    if i > 0 {
      EveryStateIsSafe(run, log, states, i - 1);
      StepIsSafe(run, log, states[i - 1], states[i]);
    }
  }

  /** The final values of the words that are stored once, at the start. */
  lemma FirstWordsOfRun(run: seq<Store>)
    requires Published(run)
    ensures WordAfter(run, MAGIC_AT) == MAGIC && WordAfter(run, VERSION_AT) == VERSION
    ensures WordAfter(run, STATE_AT) == STATE_TEST_COMPLETE
  {
    var n := |run| - 1;
    assert forall i | 3 <= i < n :: run[i] == run[..n][i];
    QuietStores(run, 1, n + 1, MAGIC_AT);
    QuietStores(run, 2, n + 1, VERSION_AT);
    assert run[..1][0] == Store(MAGIC_AT, MAGIC) && run[..2][1] == Store(VERSION_AT, VERSION);
    assert run[..n + 1] == run;
  }

  /** The final record, the heartbeat counter aside. */
  ghost predicate IsFinalRecord(run: seq<Store>, image: seq<U32>)
  {
    |image| == PREFIX_WORDS && forall k | 0 <= k < PREFIX_WORDS && k != COUNTER_AT :: EqualsFinal(run, image, k)
  }

  /** A read that ends with state complete is the firmware's final record if and only if it also shows
      the magic number and the version: these are the words read before the state. */
  lemma AcceptedReadIsFinal(run: seq<Store>, log: seq<Store>, states: seq<State>)
    requires Continues(run, log) && Reading(log, states)
    requires |states[|states| - 1].image| == PREFIX_WORDS
    requires states[|states| - 1].image[STATE_AT] == STATE_TEST_COMPLETE
    ensures var image := states[|states| - 1].image;
            IsFinalRecord(run, image) <==> image[MAGIC_AT] == MAGIC && image[VERSION_AT] == VERSION
  {
    EveryStateIsSafe(run, log, states, |states| - 1);
    FirstWordsOfRun(run);
    var image := states[|states| - 1].image;
    if image[MAGIC_AT] == MAGIC && image[VERSION_AT] == VERSION {
      assert EqualsFinal(run, image, MAGIC_AT) && EqualsFinal(run, image, VERSION_AT);
    } else {
      assert !EqualsFinal(run, image, MAGIC_AT) || !EqualsFinal(run, image, VERSION_AT);
    }
  }

  /** A read that starts after the run is over gets the final record, so waiting long enough suffices. */
  lemma {:induction false} LateReadIsFinal(run: seq<Store>, log: seq<Store>, states: seq<State>, i: nat)
    requires Continues(run, log) && Reading(log, states) && i < |states| && states[0].done >= |run|
    ensures |run| <= states[i].done <= |log|
    ensures forall k | 0 <= k < |states[i].image| && k != COUNTER_AT :: EqualsFinal(run, states[i].image, k)
    ensures |states[i].image| == PREFIX_WORDS ==>
              IsFinalRecord(run, states[i].image) && states[i].image[STATE_AT] == STATE_TEST_COMPLETE
  {
    FirstWordsOfRun(run);
    if i > 0 {
      LateReadIsFinal(run, log, states, i - 1);
      var s, k := states[i - 1], |states[i - 1].image|;
      assert Next(log, s, states[i]);
      if k != COUNTER_AT { SettledWords(run, log, s.done, k); }
      assert forall j | 0 <= j < k && j != COUNTER_AT :: EqualsFinal(run, s.image, j) ==> EqualsFinal(run, states[i].image, j);
    }
    if |states[i].image| == PREFIX_WORDS {
      assert EqualsFinal(run, states[i].image, STATE_AT);
    }
  }

  lemma {:induction false} ReadOn(log: seq<Store>, states: seq<State>) returns (more: seq<State>)
    requires Reading(log, states) && |states[|states| - 1].image| <= PREFIX_WORDS
    requires states[|states| - 1].done == |log|
    ensures Reading(log, more) && |more| >= |states| && more[..|states|] == states
    ensures var last, image := states[|states| - 1].image, more[|more| - 1].image;
            && |image| == PREFIX_WORDS && image[..|last|] == last
            && forall k | |last| <= k < PREFIX_WORDS :: image[k] == WordAfter(log, k)
    decreases PREFIX_WORDS - |states[|states| - 1].image|
  {
    var last := states[|states| - 1];
    if |last.image| == PREFIX_WORDS {
      more := states;
    } else {
      var next := last.(image := last.image + [WordAfter(log, |last.image|)]);
      assert log[..|log|] == log;
      assert Next(log, last, next);
      more := ReadOn(log, states + [next]);
      assert more[..|states|] == more[..|states| + 1][..|states|];
      assert next.image[..|last.image|] == last.image;
      assert more[|more| - 1].image[..|last.image|] == more[|more| - 1].image[..|next.image|][..|last.image|];
    }
  }

  /** The state alone would not do: a probe that reads the first word too early can still see completion. */
  lemma StateAloneIsNotEnough(run: seq<Store>) returns (states: seq<State>)
    requires Published(run)
    ensures Reading(run, states) && |states[|states| - 1].image| == PREFIX_WORDS
    ensures states[|states| - 1].image[STATE_AT] == STATE_TEST_COMPLETE
    ensures !IsFinalRecord(run, states[|states| - 1].image)
  {
    FirstWordsOfRun(run);
    states := [State(0, []), State(0, [0])] + seq(|run|, i requires 0 <= i => State(i + 1, [0]));
    assert Next(run, State(0, []), State(0, [0])) by { assert run[..0] == []; }
    states := ReadOn(run, states);
    assert states[|states| - 1].image[..1][0] == 0;
    assert !EqualsFinal(run, states[|states| - 1].image, MAGIC_AT);
  }

  /** One turn of the loop that follows the run. */
  method Beat(board: Board, ghost run: seq<Store>)
    requires board.Valid() && Continues(run, board.log)
    modifies board, board.words
    ensures board.Valid() && Continues(run, board.log)
    ensures board.words[..] == old(board.words[..])[COUNTER_AT := (old(board.words[COUNTER_AT]) + 1) % TWO_32]
  {
    board.Put(COUNTER_AT, (board.words[COUNTER_AT] + 1) % TWO_32);
  }
}
