/** The loop-index pre-pass of `run` (BitFuckDLL.cpp): one left-to-right
    scan with a stack of open positions that pairs every `[` with its `]`
    and records each pair in both directions. */
module Loops {
  import opened Wrappers

  /** The loop index: bracket position to matching bracket position. */
  type LoopMap = map<int, int>

  predicate IsBracket(c: char) {
    c == '[' || c == ']'
  }

  /** Net nesting contribution of one character. */
  function Delta(c: char): int {
    if c == '[' then 1 else if c == ']' then -1 else 0
  }

  /** Opens minus closes among the first `k` characters. */
  function Depth(prog: string, k: nat): int
    requires k <= |prog|
  {
    if k == 0 then 0 else Depth(prog, k - 1) + Delta(prog[k - 1])
  }

  /** Reference definition of a well-bracketed program: no prefix closes
      more than it opens, and the whole text closes all it opens. */
  predicate Balanced(prog: string) {
    && (forall k :: 0 <= k <= |prog| ==> Depth(prog, k) >= 0)
    && Depth(prog, |prog|) == 0
  }

  /** `s` and `e` are a matching pair: a `[` at `s`, a `]` at `e`, and the
      depth between them never returns to the depth before `s` until just
      after `e`. */
  predicate Matched(prog: string, s: int, e: int) {
    && 0 <= s < e < |prog|
    && prog[s] == '[' && prog[e] == ']'
    && Depth(prog, e + 1) == Depth(prog, s)
    && forall k :: s < k <= e ==> Depth(prog, k) > Depth(prog, s)
  }

  /** A correct loop index for `prog`: its keys are exactly the bracket
      positions, it is its own inverse, and it pairs each `[` with its
      matching `]`. */
  ghost predicate LoopMapOk(prog: string, loops: LoopMap) {
    && (forall p :: p in loops <==> 0 <= p < |prog| && IsBracket(prog[p]))
    && (forall p :: p in loops ==> loops[p] in loops && loops[loops[p]] == p)
    && (forall p :: p in loops && prog[p] == '[' ==> Matched(prog, p, loops[p]))
    && (forall p :: p in loops && prog[p] == ']' ==> Matched(prog, loops[p], p))
  }

  /** The depth facts that hold after the first `i` characters have been
      scanned with the open positions still pending on `stack` (top last):
      the stack holds one `[` per open level, in order. */
  ghost predicate StackInv(prog: string, i: nat, stack: seq<int>) {
    && i <= |prog|
    && (forall k :: 0 <= k <= i ==> Depth(prog, k) >= 0)
    && |stack| == Depth(prog, i)
    && (forall j :: 0 <= j < |stack| ==>
          0 <= stack[j] < i && prog[stack[j]] == '[' && Depth(prog, stack[j]) == j)
    && (forall j, k :: 0 <= j < |stack| && stack[j] < k <= i ==> Depth(prog, k) > j)
  }

  /** The pairs found among the first `i` characters: every scanned bracket
      not pending on the stack, recorded both ways. */
  ghost predicate PairsInv(prog: string, i: nat, stack: seq<int>, loops: LoopMap)
    requires i <= |prog|
  {
    && (forall p :: p in loops <==> 0 <= p < i && IsBracket(prog[p]) && p !in stack)
    && (forall p :: p in loops ==> loops[p] in loops && loops[loops[p]] == p)
    && (forall p :: p in loops && prog[p] == '[' ==> Matched(prog, p, loops[p]))
    && (forall p :: p in loops && prog[p] == ']' ==> Matched(prog, loops[p], p))
  }

  ghost predicate ScanInv(prog: string, i: nat, stack: seq<int>, loops: LoopMap) {
    StackInv(prog, i, stack) && PairsInv(prog, i, stack, loops)
  }

  /** From position `i` on, no prefix goes below depth 0 and the whole
      text ends at depth 0. */
  predicate RestBalanced(prog: string, i: nat)
    requires i <= |prog|
  {
    (forall k :: i <= k <= |prog| ==> Depth(prog, k) >= 0) && Depth(prog, |prog|) == 0
  }

  lemma RestBalancedStep(prog: string, i: nat)
    requires i < |prog|
    ensures RestBalanced(prog, i) <==> Depth(prog, i) >= 0 && RestBalanced(prog, i + 1)
  {
  }

  /** The scan from position `i`, with the pending open positions on
      `stack` (top last) and the pairs found so far in `loops`: `None` on a
      `]` met with an empty stack or on `[` left over at the end. */
  function Scan(prog: string, i: nat, stack: seq<int>, loops: LoopMap): Option<LoopMap>
    requires i <= |prog|
    decreases |prog| - i
  {
    if i == |prog| then
      if |stack| == 0 then Some(loops) else None
    else if prog[i] == '[' then
      Scan(prog, i + 1, stack + [i], loops)
    else if prog[i] == ']' then
      if |stack| == 0 then None
      else
        var s := stack[|stack| - 1];
        Scan(prog, i + 1, stack[..|stack| - 1], loops[s := i][i := s])
    else
      Scan(prog, i + 1, stack, loops)
  }

  /** From a state satisfying `ScanInv`, the scan succeeds exactly when the
      rest of the text is balanced, and then yields a correct loop index. */
  lemma {:induction false} ScanCorrect(prog: string, i: nat, stack: seq<int>, loops: LoopMap)
    requires ScanInv(prog, i, stack, loops)
    ensures Scan(prog, i, stack, loops).Some? <==> RestBalanced(prog, i)
    ensures Scan(prog, i, stack, loops).Some? ==> LoopMapOk(prog, Scan(prog, i, stack, loops).value)
    decreases |prog| - i
  {
    if i == |prog| {
      ScanEnds(prog, stack, loops);
    } else {
      ScanStep(prog, i, stack, loops);
      if prog[i] == '[' {
        ScanCorrect(prog, i + 1, stack + [i], loops);
      } else if prog[i] == ']' {
        if |stack| > 0 {
          var s := stack[|stack| - 1];
          ScanCorrect(prog, i + 1, stack[..|stack| - 1], loops[s := i][i := s]);
        }
      } else {
        ScanCorrect(prog, i + 1, stack, loops);
      }
    }
  }

  /** One character of the scan keeps `ScanInv` on every path that goes on,
      and the balance of the rest is decided one character later. */
  lemma ScanStep(prog: string, i: nat, stack: seq<int>, loops: LoopMap)
    requires ScanInv(prog, i, stack, loops) && i < |prog|
    ensures RestBalanced(prog, i) <==> RestBalanced(prog, i + 1)
    ensures prog[i] == ']' && |stack| == 0 ==> !RestBalanced(prog, i + 1)
    ensures prog[i] == '[' ==> ScanInv(prog, i + 1, stack + [i], loops)
    ensures prog[i] == ']' && |stack| > 0 ==>
      ScanInv(prog, i + 1, stack[..|stack| - 1],
              loops[stack[|stack| - 1] := i][i := stack[|stack| - 1]])
    ensures !IsBracket(prog[i]) ==> ScanInv(prog, i + 1, stack, loops)
  {
    ScanAdvances(prog, i, stack, loops);
    if prog[i] == '[' {
      PushKeepsInv(prog, i, stack, loops);
    } else if prog[i] == ']' {
      if |stack| > 0 { PopKeepsInv(prog, i, stack, loops); }
    } else {
      OtherKeepsInv(prog, i, stack, loops);
    }
  }

  /** At the end of the text the pairs are complete exactly when nothing is
      left pending. */
  lemma ScanEnds(prog: string, stack: seq<int>, loops: LoopMap)
    requires ScanInv(prog, |prog|, stack, loops)
    ensures |stack| == 0 <==> RestBalanced(prog, |prog|)
    ensures |stack| == 0 ==> LoopMapOk(prog, loops)
  {
    assert StackInv(prog, |prog|, stack) && PairsInv(prog, |prog|, stack, loops);
  }

  /** Before the end, the rest is balanced from `i` exactly when it is from
      `i + 1`; a `]` met with an empty stack closes below depth 0. */
  lemma ScanAdvances(prog: string, i: nat, stack: seq<int>, loops: LoopMap)
    requires ScanInv(prog, i, stack, loops) && i < |prog|
    ensures RestBalanced(prog, i) <==> RestBalanced(prog, i + 1)
    ensures prog[i] == ']' && |stack| == 0 ==> !RestBalanced(prog, i + 1)
  {
    assert StackInv(prog, i, stack);
    assert Depth(prog, i) >= 0;
    assert Depth(prog, i + 1) == Depth(prog, i) + Delta(prog[i]);
    RestBalancedStep(prog, i);
  }

  /** Scanning a `[` pushes its position. */
  lemma PushKeepsInv(prog: string, i: nat, stack: seq<int>, loops: LoopMap)
    requires ScanInv(prog, i, stack, loops) && i < |prog| && prog[i] == '['
    ensures ScanInv(prog, i + 1, stack + [i], loops)
  {
    var st := stack + [i];
    assert Depth(prog, i + 1) == Depth(prog, i) + 1;
    forall j | 0 <= j < |st|
      ensures 0 <= st[j] < i + 1 && prog[st[j]] == '[' && Depth(prog, st[j]) == j
    {
      if j < |stack| { assert st[j] == stack[j]; }
    }
    forall j, k | 0 <= j < |st| && st[j] < k <= i + 1
      ensures Depth(prog, k) > j
    {
      if j < |stack| && k <= i { assert st[j] == stack[j]; }
    }
    assert StackInv(prog, i + 1, st);
    forall p ensures p in loops <==> 0 <= p < i + 1 && IsBracket(prog[p]) && p !in st {
      if p in loops { assert p < i; }
      if 0 <= p < i { assert p in st <==> p in stack; }
    }
  }

  /** Scanning a `]` with a non-empty stack pops its partner and records
      the pair both ways. */
  lemma PopKeepsInv(prog: string, i: nat, stack: seq<int>, loops: LoopMap)
    requires ScanInv(prog, i, stack, loops) && i < |prog| && prog[i] == ']'
    requires |stack| > 0
    ensures ScanInv(prog, i + 1, stack[..|stack| - 1],
                    loops[stack[|stack| - 1] := i][i := stack[|stack| - 1]])
  {
    PopKeepsStack(prog, i, stack);
    PopKeepsPairs(prog, i, stack, loops);
  }

  /** The depth half of `PopKeepsInv`; also: the popped `[` matches `i`. */
  lemma PopKeepsStack(prog: string, i: nat, stack: seq<int>)
    requires StackInv(prog, i, stack) && i < |prog| && prog[i] == ']'
    requires |stack| > 0
    ensures StackInv(prog, i + 1, stack[..|stack| - 1])
    ensures Matched(prog, stack[|stack| - 1], i)
  {
    var top := |stack| - 1;
    var st := stack[..top];
    assert Depth(prog, i + 1) == Depth(prog, i) - 1 == top;
    forall j | 0 <= j < |st|
      ensures 0 <= st[j] < i + 1 && prog[st[j]] == '[' && Depth(prog, st[j]) == j
    {
      assert st[j] == stack[j];
    }
    forall j, k | 0 <= j < |st| && st[j] < k <= i + 1
      ensures Depth(prog, k) > j
    {
      assert st[j] == stack[j];
    }
  }

  /** The pairs half of `PopKeepsInv`. */
  lemma PopKeepsPairs(prog: string, i: nat, stack: seq<int>, loops: LoopMap)
    requires ScanInv(prog, i, stack, loops) && i < |prog| && prog[i] == ']'
    requires |stack| > 0
    requires Matched(prog, stack[|stack| - 1], i)
    ensures PairsInv(prog, i + 1, stack[..|stack| - 1],
                     loops[stack[|stack| - 1] := i][i := stack[|stack| - 1]])
  {
    var top := |stack| - 1;
    var s := stack[top];
    var st := stack[..top];
    assert s !in st by {
      forall j | 0 <= j < |st| ensures st[j] != s {
        assert st[j] == stack[j];
        assert Depth(prog, stack[j]) == j;
        assert Depth(prog, s) == top;
      }
    }
    PopKeys(prog, i, stack, loops);
    PopSymmetric(prog, i, s, loops);
  }

  /** After a pop, the keys are the scanned brackets off the stack. */
  lemma PopKeys(prog: string, i: nat, stack: seq<int>, loops: LoopMap)
    requires i < |prog| && prog[i] == ']' && |stack| > 0
    requires forall j :: 0 <= j < |stack| ==> 0 <= stack[j] < i && prog[stack[j]] == '['
    requires stack[|stack| - 1] !in stack[..|stack| - 1]
    requires forall p :: p in loops <==> 0 <= p < i && IsBracket(prog[p]) && p !in stack
    ensures forall p :: p in loops[stack[|stack| - 1] := i][i := stack[|stack| - 1]] <==>
      0 <= p < i + 1 && IsBracket(prog[p]) && p !in stack[..|stack| - 1]
  {
    var s := stack[|stack| - 1];
    var st := stack[..|stack| - 1];
    assert stack == st + [s];
    assert s in stack;
  }

  /** Adding the pair `s`, `i` to a self-inverse map that has neither key
      keeps it self-inverse. */
  lemma PopSymmetric(prog: string, i: int, s: int, loops: LoopMap)
    requires s != i && s !in loops && i !in loops
    requires forall p :: p in loops ==> 0 <= p < |prog|
    requires forall p :: p in loops ==> loops[p] in loops && loops[loops[p]] == p
    requires forall p :: p in loops && prog[p] == '[' ==> Matched(prog, p, loops[p])
    requires forall p :: p in loops && prog[p] == ']' ==> Matched(prog, loops[p], p)
    requires Matched(prog, s, i)
    ensures var m := loops[s := i][i := s];
      && (forall p :: p in m ==> m[p] in m && m[m[p]] == p)
      && (forall p :: p in m && prog[p] == '[' ==> Matched(prog, p, m[p]))
      && (forall p :: p in m && prog[p] == ']' ==> Matched(prog, m[p], p))
  {
  }

  /** Any other character leaves stack and pairs as they are. */
  lemma OtherKeepsInv(prog: string, i: nat, stack: seq<int>, loops: LoopMap)
    requires ScanInv(prog, i, stack, loops) && i < |prog| && !IsBracket(prog[i])
    ensures ScanInv(prog, i + 1, stack, loops)
  {
    assert Depth(prog, i + 1) == Depth(prog, i);
    forall j, k | 0 <= j < |stack| && stack[j] < k <= i + 1
      ensures Depth(prog, k) > j
    {
    }
    assert StackInv(prog, i + 1, stack);
  }

  /** The whole pre-pass of `run`. */
  function BuildLoops(prog: string): (r: Option<LoopMap>)
    ensures r.Some? <==> Balanced(prog)
    ensures r.Some? ==> LoopMapOk(prog, r.value)
  {
    ScanCorrect(prog, 0, [], map[]);
    Scan(prog, 0, [], map[])
  }

  /** A bracket has at most one partner: `Matched` is a partial bijection. */
  lemma MatchedUnique(prog: string, s: int, e: int, s': int, e': int)
    requires Matched(prog, s, e)
    ensures Matched(prog, s, e') ==> e' == e
    ensures Matched(prog, s', e) ==> s' == s
  {
  }
}
