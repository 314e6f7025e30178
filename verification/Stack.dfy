/** Stack painting at reset and the high-water mark read back at the end. */
module Stack {
  import opened Words

  const PAINT: U32 := 0xEEEE_EEEE
  const GUARD_WORDS := 16

  /** Paints the stack region from its limit up to the guard below the top. */
  method PaintStack(stack: array<U32>)
    modifies stack
    ensures forall k | 0 <= k < stack.Length ::
              stack[k] == if k < stack.Length - GUARD_WORDS then PAINT else old(stack[k])
  {
    var k := 0;
    while k < stack.Length - GUARD_WORDS
      invariant 0 <= k && (k <= stack.Length - GUARD_WORDS || k == 0)
      invariant forall j | 0 <= j < stack.Length :: stack[j] == if j < k then PAINT else old(stack[j])
    {
      stack[k] := PAINT;
      k := k + 1;
    }
  }

  /** Copies the initial values of the data region and zeroes the region of uninitialised variables. */
  method CopyAndZero(memory: array<U32>, load: seq<U32>, dataStart: nat, bssStart: nat, bssEnd: nat)
    requires dataStart + |load| <= bssStart <= bssEnd <= memory.Length
    modifies memory
    ensures forall k | 0 <= k < memory.Length ::
              memory[k] == if dataStart <= k < dataStart + |load| then load[k - dataStart]
                           else if bssStart <= k < bssEnd then 0
                           else old(memory[k])
  {
    var src, dst := 0, dataStart;
    while dst < dataStart + |load|
      invariant src == dst - dataStart && 0 <= src <= |load|
      invariant forall k | 0 <= k < memory.Length ::
                  memory[k] == if dataStart <= k < dst then load[k - dataStart] else old(memory[k])
    {
      memory[dst] := load[src];
      dst, src := dst + 1, src + 1;
    }
    dst := bssStart;
    while dst < bssEnd
      invariant bssStart <= dst <= bssEnd
      invariant forall k | 0 <= k < memory.Length ::
                  memory[k] == if dataStart <= k < dataStart + |load| then load[k - dataStart]
                               else if bssStart <= k < dst then 0
                               else old(memory[k])
    {
      memory[dst] := 0;
      dst := dst + 1;
    }
  }

  /** The bytes from the first word that is not paint up to the top. */
  function Watermark(stack: seq<U32>): (bytes: nat)
    ensures bytes <= 4 * |stack|
  {
    if stack == [] || stack[0] != PAINT then 4 * |stack| else Watermark(stack[1..])
  }

  method StackWatermark(stack: array<U32>) returns (bytes: nat)
    ensures bytes == Watermark(stack[..])
  {
    var p := 0;
    while p < stack.Length && stack[p] == PAINT
      invariant 0 <= p <= stack.Length
      invariant Watermark(stack[..]) == Watermark(stack[p..])
    {
      assert stack[p..][1..] == stack[p + 1..];
      p := p + 1;
    }
    bytes := 4 * (stack.Length - p);
  }

  /** What a run leaves behind when the stack was painted and nothing below word `low` was written. */
  predicate Untouched(stack: seq<U32>, low: nat)
  {
    forall k | 0 <= k < low && k < |stack| - GUARD_WORDS :: stack[k] == PAINT
  }

  /** The stack after a run of word writes (index, value). */
  function AfterWrites(stack: seq<U32>, writes: seq<(nat, U32)>): (r: seq<U32>)
    requires forall w | w in writes :: w.0 < |stack|
    ensures |r| == |stack|
    decreases |writes|
  {
    if writes == [] then stack
    else
      var before := AfterWrites(stack, writes[..|writes| - 1]);
      before[writes[|writes| - 1].0 := writes[|writes| - 1].1]
  }

  lemma {:induction false} RunLeavesPaint(stack: seq<U32>, writes: seq<(nat, U32)>, low: nat)
    requires forall w | w in writes :: low <= w.0 < |stack|
    requires Untouched(stack, low)
    ensures Untouched(AfterWrites(stack, writes), low)
    decreases |writes|
  {
    if writes != [] {
      var last := writes[|writes| - 1];
      assert last in writes;
      RunLeavesPaint(stack, writes[..|writes| - 1], low);
    }
  }

  lemma {:induction false} WatermarkSkipsPaint(stack: seq<U32>, n: nat)
    requires n <= |stack| && forall k | 0 <= k < n :: stack[k] == PAINT
    ensures Watermark(stack) == Watermark(stack[n..])
  {
    if n > 0 {
      WatermarkSkipsPaint(stack[1..], n - 1);
      assert stack[1..][n - 1..] == stack[n..];
    } else {
      assert stack[0..] == stack;
    }
  }

  /** The mark never overstates the use of the stack by more than the unpainted guard. Below the guard
      it is exact if and only if the lowest word used does not happen to hold the paint pattern. */
  lemma WatermarkIsSound(stack: seq<U32>, low: nat)
    requires low <= |stack| && Untouched(stack, low)
    ensures Watermark(stack) <= 4 * (|stack| - low) || Watermark(stack) <= 4 * GUARD_WORDS
    ensures low < |stack| - GUARD_WORDS ==>
              (Watermark(stack) == 4 * (|stack| - low) <==> stack[low] != PAINT)
  {
    if |stack| >= GUARD_WORDS {
      var painted := if low <= |stack| - GUARD_WORDS then low else |stack| - GUARD_WORDS;
      WatermarkSkipsPaint(stack, painted);
    }
  }
}
