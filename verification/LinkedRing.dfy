/**
  bench/llist.c: a pointer chase around a ring of nodes linked with a fixed stride.
  The kernel's constants are the parameters `N` (nodes), `S` (stride) and the number of passes.
 */
module LinkedRing {
  import opened Bits

  class Node {
    var next: Node?
    var val: word
    constructor () { next, val := null, 0; }
  }

  // ----- the code

  /** Where the construction loop stands after `k` steps. */
  function Position(k: nat, S: nat, N: nat): (p: nat)
    requires N > 0
    ensures p < N
  {
    k * S % N
  }

  /** The node the loop links node `p` to. */
  function Following(p: nat, S: nat, N: nat): (q: nat)
    requires N > 0
    ensures q < N
  {
    (p + S) % N
  }

  lemma PositionStep(k: nat, S: nat, N: nat)
    requires N > 0
    ensures Following(Position(k, S, N), S, N) == Position(k + 1, S, N)
  {
    var q := k * S / N;
    assert (k + 1) * S == k * S + S;
    assert (k + 1) * S == (Position(k, S, N) + S) + q * N;
    ModShift(Position(k, S, N) + S, q, N);
  }

  function InitialValue(i: nat): word { Wrap(i * 7 + 1) }

  ghost predicate Distinct(pool: seq<Node>) {
    forall i, j :: 0 <= i < j < |pool| ==> pool[i] != pool[j]
  }

  /** Each node the construction visits points to the next one visited. */
  ghost predicate Linked(pool: array<Node>, S: nat)
    reads pool, pool[..]
  {
    && pool.Length > 0
    && (forall i :: 0 <= i < pool.Length ==> pool[i].val == (7 * i + 1) % 0x1_0000_0000)
    && (forall k: nat :: k < pool.Length ==>
          pool[Position(k, S, pool.Length)].next == pool[Position(k + 1, S, pool.Length)])
  }

  /** Node `p` points to the node the loop links it to. */
  ghost predicate LinksOn(pool: array<Node>, p: nat, S: nat)
    requires p < pool.Length
    reads pool, pool[..]
  {
    pool[p].next == pool[Following(p, S, pool.Length)]
  }

  method FillValues(pool: array<Node>)
    requires Distinct(pool[..])
    modifies pool[..]
    ensures forall j :: 0 <= j < pool.Length ==> pool[j].val == (7 * j + 1) % 0x1_0000_0000
  {
    for i := 0 to pool.Length
      invariant forall j :: 0 <= j < i ==> pool[j].val == (7 * j + 1) % 0x1_0000_0000
    {
      pool[i].val := Wrap(i * 7 + 1);
    }
  }

  /** One turn of the second loop; every other node keeps its pointer. */
  method LinkNode(pool: array<Node>, p: nat, S: nat) returns (q: nat)
    requires p < pool.Length && Distinct(pool[..])
    modifies pool[p]
    ensures forall o :: 0 <= o < pool.Length ==> pool[o].val == old(pool[o].val)
    ensures q == Following(p, S, pool.Length) && LinksOn(pool, p, S)
    ensures forall o: nat :: o < pool.Length && old(LinksOn(pool, o, S)) ==> LinksOn(pool, o, S)
  {
    hide Following;
    q := Following(p, S, pool.Length);
    pool[p].next := pool[q];
    forall o: nat | o < pool.Length && old(LinksOn(pool, o, S))
      ensures LinksOn(pool, o, S)
    {
      if o != p {
        assert pool[..][o] == pool[o] && pool[..][p] == pool[p];
      }
    }
  }

  method Build(pool: array<Node>, S: nat)
    requires pool.Length > 0 && Distinct(pool[..])
    modifies pool[..]
    ensures Linked(pool, S)
  {
    hide Position, LinksOn, Distinct;
    var N := pool.Length;
    FillValues(pool);
    var p := 0;
    assert Position(0, S, N) == 0 by {
      FirstPosition(S, N);
    }
    for i := 0 to N
      invariant p == Position(i, S, N)
      invariant forall j :: 0 <= j < N ==> pool[j].val == InitialValue(j)
      invariant forall k: nat :: k < i ==> LinksOn(pool, Position(k, S, N), S)
    {
      PositionStep(i, S, N);
      p := LinkNode(pool, p, S);
    }
    forall k: nat | k < N
      ensures pool[Position(k, S, N)].next == pool[Position(k + 1, S, N)]
    {
      LinkedOn(pool, k, S);
    }
  }

  lemma FirstPosition(S: nat, N: nat)
    requires N > 0
    ensures Position(0, S, N) == 0
  {
  }

  lemma LinkedOn(pool: array<Node>, k: nat, S: nat)
    requires pool.Length > 0 && LinksOn(pool, Position(k, S, pool.Length), S)
    ensures pool[Position(k, S, pool.Length)].next == pool[Position(k + 1, S, pool.Length)]
  {
    hide Position;
    PositionStep(k, S, pool.Length);
  }

  /** What the chase adds up over its first `steps` steps. */
  function Visited(steps: nat, S: nat, N: nat): nat
    requires N > 0
  {
    if steps == 0 then 0 else Visited(steps - 1, S, N) + InitialValue(Position(steps - 1, S, N))
  }

  method Chase(pool: array<Node>, S: nat, steps: nat) returns (sum: word)
    requires Linked(pool, S)
    ensures sum == Wrap(Visited(steps, S, pool.Length))
  {
    var N := pool.Length;
    var n := pool[0];
    sum := 0;
    assert Position(0, S, N) == 0;
    hide Position, InitialValue, Visited, Wrap;
    VisitedStarts(S, N);
    for i := 0 to steps
      invariant n == pool[Position(i, S, N)]
      invariant sum == Wrap(Visited(i, S, N))
    {
      Around(i, S, N);
      assert pool[Position(i % N, S, N)].next == pool[Position(i % N + 1, S, N)];
      VisitedStep(i, S, N);
      WrapSum(Visited(i, S, N), n.val);
      sum := Wrap(sum + n.val);
      n := n.next;
    }
  }

  lemma VisitedStarts(S: nat, N: nat)
    requires N > 0
    ensures Wrap(Visited(0, S, N)) == 0
  {
  }

  lemma VisitedStep(i: nat, S: nat, N: nat)
    requires N > 0
    ensures Visited(i + 1, S, N) == Visited(i, S, N) + (7 * Position(i, S, N) + 1) % 0x1_0000_0000
  {
    hide Position;
  }

  lemma WrapSum(a: int, b: int)
    ensures Wrap(Wrap(a) + b) == Wrap(a + b)
  {
    ModShift(Wrap(a) + b, a / WORD, WORD);
  }

  method Bench(pool: array<Node>, S: nat, passes: nat) returns (sum: word)
    requires pool.Length > 0 && Distinct(pool[..])
    modifies pool[..]
    ensures Linked(pool, S)
    ensures sum == Wrap(Visited(pool.Length * passes, S, pool.Length))
    ensures var N := pool.Length;
      Coprime(N, S) ==> sum == passes * (7 * (N * (N - 1) / 2) + N) % 0x1_0000_0000
  {
    hide Linked, Visited, Coprime, Distinct, Wrap;
    Build(pool, S);
    sum := Chase(pool, S, pool.Length * passes);
    if Coprime(pool.Length, S) {
      ChaseReturns(passes, S, pool.Length);
    }
  }

  /** Positions repeat after N steps. */
  lemma Around(i: nat, S: nat, N: nat)
    requires N > 0
    ensures Position(i % N, S, N) == Position(i, S, N)
    ensures Position(i % N + 1, S, N) == Position(i + 1, S, N)
  {
    var q := i / N;
    assert i == q * N + i % N;
    assert i * S == (i % N) * S + (q * S) * N;
    ModShift((i % N) * S, q * S, N);
    PositionStep(i % N, S, N);
    PositionStep(i, S, N);
  }

  // ----- when the pointers form one cycle

  predicate Divides(d: int, x: int)
    requires d > 0
  {
    x % d == 0
  }

  ghost predicate Coprime(a: nat, b: nat) {
    forall d: int :: d > 1 ==> !(Divides(d, a) && Divides(d, b))
  }

  /** The greatest common divisor is a combination of the two numbers. */
  lemma {:induction false} Bezout(a: nat, b: nat) returns (g: int, x: int, y: int)
    requires a > 0 || b > 0
    ensures g > 0 && Divides(g, a) && Divides(g, b) && g == a * x + b * y
    decreases b
  {
    if b == 0 {
      g, x, y := a, 1, 0;
      DivModUnique(a, a, 1, 0);
      DivModUnique(0, a, 0, 0);
    } else {
      var u, v;
      g, u, v := Bezout(b, a % b);
      var q := a / b;
      x, y := v, u - q * v;
      EuclidStep(a, b, q, a % b, u, v);
      DividesCombination(g, b, a % b, q);
    }
  }

  lemma EuclidStep(a: int, b: int, q: int, r: int, u: int, v: int)
    requires a == q * b + r
    ensures b * u + r * v == a * v + b * (u - q * v)
  {
    assert a * v == (q * b) * v + r * v;
    assert (q * b) * v == b * (q * v);
    assert b * (u - q * v) == b * u - b * (q * v);
  }

  lemma DividesCombination(g: int, b: int, r: int, q: int)
    requires g > 0 && Divides(g, b) && Divides(g, r)
    ensures Divides(g, q * b + r)
  {
    var m, n := b / g, r / g;
    assert b == m * g && r == n * g;
    assert q * b + r == (q * m + n) * g + 0 by {
      assert q * (m * g) == (q * m) * g;
    }
    DivModUnique(q * b + r, g, q * m + n, 0);
  }

  /** A coprime stride has an inverse modulo N. */
  lemma Inverse(S: nat, N: nat) returns (t: nat)
    requires N > 0 && Coprime(N, S)
    ensures S * t % N == 1 % N
  {
    var g, x, y := Bezout(N, S);
    assert g == 1;
    t := y % N;
    var q := y / N;
    assert S * t == 1 + (-x - S * q) * N by {
      assert y == q * N + t;
      assert S * y == S * (q * N) + S * t;
      assert S * (q * N) == (S * q) * N;
    }
    ModShift(1, -x - S * q, N);
  }

  lemma StepsBack(p: int, S: int, N: int, t: int, k: int, q: int, e: int)
    requires S * t == 1 + e * N && p * t == q * N + k
    ensures k * S == p + (p * e - q * S) * N
  {
    assert (p * t) * S == (q * N) * S + k * S;
    assert (p * t) * S == p * (S * t);
    assert p * (1 + e * N) == p + (p * e) * N;
    assert (q * N) * S == (q * S) * N;
  }

  /** With an inverse of the stride, position p is reached after p * t steps. */
  lemma Reaches(p: nat, S: nat, N: nat, t: nat)
    requires p < N && S * t % N == 1 % N
    ensures Position(p * t % N, S, N) == p
  {
    var k, q := p * t % N, p * t / N;
    var e := S * t / N - 1 / N;
    assert S * t == 1 + e * N by { assert S * t == S * t / N * N + S * t % N; }
    StepsBack(p, S, N, t, k, q, e);
    ModShift(p, p * e - q * S, N);
    SmallResidue(p, N);
  }

  /** Following the pointers from the first node meets node `p` within N steps. */
  ghost predicate Meets(p: nat, S: nat, N: nat)
    requires N > 0
  {
    exists k: nat :: k < N && Position(k, S, N) == p
  }

  ghost predicate SingleCycle(S: nat, N: nat)
    requires N > 0
  {
    forall p: nat :: p < N ==> Meets(p, S, N)
  }

  lemma CommonDivisor(d: int, k: nat, S: nat, N: nat, r: int)
    requires d > 1 && N > 0 && Divides(d, N) && Divides(d, S) && k * S % N == r
    ensures Divides(d, r)
  {
    var q := k * S / N;
    assert k * S == q * N + r;
    DividesCombination(d, S, 0, k);
    assert r == (-q) * N + k * S by {
      assert (-q) * N == -(q * N);
    }
    DividesCombination(d, N, k * S, -q);
  }

  lemma OneHasNoDivisor(d: int)
    requires d > 1
    ensures !Divides(d, 1)
  {
    SmallResidue(1, d);
  }

  /** The pointers form one cycle through all nodes if and only if the stride is coprime to N. */
  lemma SingleCycleIffCoprime(S: nat, N: nat)
    requires N > 0
    ensures SingleCycle(S, N) <==> Coprime(N, S)
  {
    hide Position;
    if Coprime(N, S) {
      var t := Inverse(S, N);
      forall p: nat | p < N
        ensures Meets(p, S, N)
      {
        Reaches(p, S, N, t);
        assert p * t % N < N;
      }
    }
    if SingleCycle(S, N) {
      forall d: int | d > 1
        ensures !(Divides(d, N) && Divides(d, S))
      {
        OneHasNoDivisor(d);
        if N > 1 {
          assert Meets(1, S, N);
          var k: nat :| k < N && Position(k, S, N) == 1;
          PositionIs(k, S, N);
          if Divides(d, N) && Divides(d, S) {
            CommonDivisor(d, k, S, N, 1);
          }
        }
      }
    }
  }

  lemma PositionIs(k: nat, S: nat, N: nat)
    requires N > 0
    ensures Position(k, S, N) == k * S % N
  {
  }

  /** On one cycle no node is met twice in N steps: every `next` is written exactly once. */
  lemma PositionsDiffer(j: nat, k: nat, S: nat, N: nat)
    requires N > 0 && Coprime(N, S) && j < k < N
    ensures Position(j, S, N) != Position(k, S, N)
  {
    var t := Inverse(S, N);
    assert t * S == S * t;
    Reaches(j, t, N, S);
    Reaches(k, t, N, S);
  }

  // ----- the sum over a pass

  function SumAt(order: seq<nat>): nat {
    if order == [] then 0 else SumAt(order[..|order| - 1]) + InitialValue(order[|order| - 1])
  }

  lemma {:induction false} SumWithout(order: seq<nat>, i: nat)
    requires i < |order|
    ensures SumAt(order) == SumAt(order[..i] + order[i + 1..]) + InitialValue(order[i])
    decreases |order|
  {
    hide InitialValue;
    var n := |order| - 1;
    if i == n {
      assert order[..i] + order[i + 1..] == order[..n];
    } else {
      var init := order[..n];
      SumWithout(init, i);
      var rest := order[..i] + order[i + 1..];
      assert rest[..|rest| - 1] == init[..i] + init[i + 1..];
    }
  }

  lemma MultisetWithout(b: seq<nat>, i: nat)
    requires i < |b|
    ensures multiset(b[..i] + b[i + 1..]) == multiset(b) - multiset{b[i]}
  {
    assert b == b[..i] + [b[i]] + b[i + 1..];
    assert multiset(b) == multiset(b[..i]) + multiset{b[i]} + multiset(b[i + 1..]);
  }

  /** The order of summation does not matter. */
  lemma {:induction false} SumOfPermutation(a: seq<nat>, b: seq<nat>)
    requires multiset(a) == multiset(b)
    ensures SumAt(a) == SumAt(b)
    decreases |a|
  {
    hide InitialValue;
    assert |a| == |multiset(a)| == |multiset(b)| == |b|;
    if a != [] {
      var n := |a| - 1;
      assert a[n] in multiset(b);
      var i :| 0 <= i < |b| && b[i] == a[n];
      SumWithout(b, i);
      MultisetWithout(b, i);
      MultisetWithout(a, n);
      assert a[..n] + a[n + 1..] == a[..n];
      SumOfPermutation(a[..n], b[..i] + b[i + 1..]);
    }
  }

  ghost predicate NoRepeats(a: seq<nat>) {
    forall i, j :: 0 <= i < j < |a| ==> a[i] != a[j]
  }

  lemma {:induction false} CountsAreOne(a: seq<nat>, x: nat)
    requires NoRepeats(a)
    ensures multiset(a)[x] == if x in a then 1 else 0
  {
    if a != [] {
      var n := |a| - 1;
      assert a == a[..n] + [a[n]];
      CountsAreOne(a[..n], x);
    }
  }

  lemma SameElements(a: seq<nat>, b: seq<nat>)
    requires NoRepeats(a) && NoRepeats(b) && forall x :: x in a <==> x in b
    ensures multiset(a) == multiset(b)
  {
    forall x: nat
      ensures multiset(a)[x] == multiset(b)[x]
    {
      CountsAreOne(a, x);
      CountsAreOne(b, x);
    }
  }

  /** All values, in pool order. */
  function Total(n: nat): nat { if n == 0 then 0 else Total(n - 1) + InitialValue(n - 1) }

  lemma {:induction false} TotalIsSum(n: nat)
    ensures Total(n) == SumAt(seq(n, i requires 0 <= i < n => i as nat))
  {
    hide InitialValue;
    if n > 0 {
      TotalIsSum(n - 1);
      var a := seq(n, i requires 0 <= i < n => i as nat);
      assert a[..n - 1] == seq(n - 1, i requires 0 <= i < n - 1 => i as nat);
    }
  }

  function Order(n: nat, S: nat, N: nat): seq<nat>
    requires N > 0
  {
    seq(n, k requires 0 <= k < n => Position(k, S, N))
  }

  lemma {:induction false} VisitedIsSum(n: nat, S: nat, N: nat)
    requires N > 0
    ensures Visited(n, S, N) == SumAt(Order(n, S, N))
  {
    hide InitialValue, Position;
    if n > 0 {
      VisitedIsSum(n - 1, S, N);
      assert Order(n, S, N)[..n - 1] == Order(n - 1, S, N);
    }
  }

  lemma PassIsTotal(S: nat, N: nat)
    requires N > 0 && Coprime(N, S)
    ensures Visited(N, S, N) == Total(N)
  {
    hide InitialValue, Position, SumAt, Coprime;
    var identity: seq<nat> := seq(N, i requires 0 <= i < N => i as nat);
    var order := Order(N, S, N);
    VisitedIsSum(N, S, N);
    TotalIsSum(N);
    SingleCycleIffCoprime(S, N);
    forall j, k | 0 <= j < k < N
      ensures order[j] != order[k]
    {
      PositionsDiffer(j, k, S, N);
    }
    forall x: nat
      ensures x in order <==> x in identity
    {
      if x in identity {
        assert Meets(x, S, N);
        var k: nat :| k < N && Position(k, S, N) == x;
        assert order[k] == x;
      }
      if x in order {
        assert identity[x] == x;
      }
    }
    SameElements(order, identity);
    SumOfPermutation(order, identity);
  }

  lemma {:induction false} VisitedByPasses(passes: nat, k: nat, S: nat, N: nat)
    requires N > 0 && k <= N
    ensures Visited(N * passes + k, S, N) == passes * Visited(N, S, N) + Visited(k, S, N)
    decreases passes, k
  {
    hide InitialValue, Position;
    if k > 0 {
      VisitedByPasses(passes, k - 1, S, N);
      SamePosition(passes, k - 1, S, N);
    } else if passes > 0 {
      VisitedByPasses(passes - 1, N, S, N);
      assert N * passes == N * (passes - 1) + N;
      assert passes * Visited(N, S, N) == (passes - 1) * Visited(N, S, N) + Visited(N, S, N);
    }
  }

  lemma SamePosition(passes: nat, k: nat, S: nat, N: nat)
    requires N > 0
    ensures Position(N * passes + k, S, N) == Position(k, S, N)
  {
    assert (N * passes + k) * S == k * S + (passes * S) * N;
    ModShift(k * S, passes * S, N);
  }

  /** With a coprime stride the chase returns the number of passes times the sum of all values. */
  lemma ChaseSumsEveryNode(passes: nat, S: nat, N: nat)
    requires N > 0 && Coprime(N, S)
    ensures Visited(N * passes, S, N) == passes * Total(N)
  {
    PassIsTotal(S, N);
    VisitedByPasses(passes, 0, S, N);
  }

  lemma Triangle(n: nat)
    requires n > 0 && (n - 1) * (n - 2) % 2 == 0
    ensures n * (n - 1) / 2 == (n - 1) * (n - 2) / 2 + n - 1 && n * (n - 1) % 2 == 0
  {
    assert n * (n - 1) == (n - 1) * (n - 2) + 2 * (n - 1);
  }

  lemma ValueWraps(i: nat) returns (q: int)
    ensures InitialValue(i) == 7 * i + 1 - q * WORD
  {
    q := (i * 7 + 1) / WORD;
  }

  /** The sum of all values modulo 2^32. */
  lemma {:induction false} TotalIs(n: nat)
    ensures (Total(n) - (7 * (n * (n - 1) / 2) + n)) % 0x1_0000_0000 == 0
    ensures n * (n - 1) % 2 == 0
  {
    if n > 0 {
      hide InitialValue;
      TotalIs(n - 1);
      Triangle(n);
      var q := ValueWraps(n - 1);
      ModShift(Total(n - 1) - (7 * ((n - 1) * (n - 2) / 2) + (n - 1)), -q, WORD);
    }
  }

  lemma ScaledResidue(passes: nat, x: int, y: int)
    requires (x - y) % 0x1_0000_0000 == 0
    ensures Wrap(passes * x) == passes * y % 0x1_0000_0000
  {
    var q := (x - y) / WORD;
    assert passes * x == passes * y + (passes * q) * WORD by {
      assert x == y + q * WORD;
      assert passes * (q * WORD) == (passes * q) * WORD;
    }
    ModShift(passes * y, passes * q, WORD);
  }

  /** The number the benchmark returns for a coprime stride. */
  lemma ChaseReturns(passes: nat, S: nat, N: nat)
    requires N > 0 && Coprime(N, S)
    ensures Wrap(Visited(N * passes, S, N)) == passes * (7 * (N * (N - 1) / 2) + N) % 0x1_0000_0000
  {
    ChaseSumsEveryNode(passes, S, N);
    TotalIs(N);
    ScaledResidue(passes, Total(N), 7 * (N * (N - 1) / 2) + N);
  }

  lemma InverseMeansCoprime(S: nat, N: nat, t: nat)
    requires N > 1 && t * S % N == 1
    ensures Coprime(N, S)
  {
    forall d: int | d > 1
      ensures !(Divides(d, N) && Divides(d, S))
    {
      OneHasNoDivisor(d);
      if Divides(d, N) && Divides(d, S) {
        CommonDivisor(d, t, S, N, 1);
      }
    }
  }

  /** The constants of the benchmark: 512 nodes, stride 269, 32 passes. */
  lemma BenchmarkReturns()
    ensures Coprime(512, 269)
    ensures Wrap(Visited(512 * 32, 269, 512)) == 29_319_168
  {
    hide Visited, Coprime, Wrap;
    InverseMeansCoprime(269, 512, 453);
    ChaseReturns(32, 269, 512);
    assert 32 * (7 * (512 * (512 - 1) / 2) + 512) % 0x1_0000_0000 == 29_319_168;
  }

  // ----- the ring in the heap

  /** The node met after following `next` `k` times from the first node. */
  ghost function Followed(pool: array<Node>, k: nat): Node?
    requires pool.Length > 0
    reads pool, pool[..]
  {
    if k == 0 then pool[0]
    else
      var before := Followed(pool, k - 1);
      if before in pool[..] then before.next else null
  }

  /** Following the pointers of a built pool visits the nodes the loops visited, in that order. */
  lemma {:induction false} FollowsPositions(pool: array<Node>, S: nat, k: nat)
    requires Linked(pool, S)
    ensures Followed(pool, k) == pool[Position(k, S, pool.Length)]
  {
    var N := pool.Length;
    if k == 0 {
      FirstPosition(S, N);
    } else {
      FollowsPositions(pool, S, k - 1);
      var p := Position(k - 1, S, N);
      assert pool[..][p] == pool[p];
      Around(k - 1, S, N);
      assert pool[Position((k - 1) % N, S, N)].next == pool[Position((k - 1) % N + 1, S, N)];
    }
  }

  /** Every node of the pool is met within as many steps as there are nodes. */
  ghost predicate MeetsAll(pool: array<Node>)
    requires pool.Length > 0
    reads pool, pool[..]
  {
    forall p: nat :: p < pool.Length ==> MeetsNode(pool, p)
  }

  ghost predicate MeetsNode(pool: array<Node>, p: nat)
    requires p < pool.Length
    reads pool, pool[..]
  {
    exists k: nat :: k < pool.Length && Followed(pool, k) == pool[p]
  }

  /** The built pointers form one cycle through all nodes of the heap if and only if the stride is coprime. */
  lemma HeapRingIffCoprime(pool: array<Node>, S: nat)
    requires Linked(pool, S) && Distinct(pool[..])
    ensures MeetsAll(pool) <==> Coprime(pool.Length, S)
    ensures Followed(pool, pool.Length) == pool[0]
  {
    var N := pool.Length;
    assert N > 0;
    hide Position, Linked, Followed;
    SingleCycleIffCoprime(S, N);
    forall k: nat
      ensures Followed(pool, k) == pool[Position(k, S, N)]
    {
      FollowsPositions(pool, S, k);
    }
    forall p: nat | p < N
      ensures Meets(p, S, N) <==> MeetsNode(pool, p)
    {
      MeetsInHeap(pool, S, p);
    }
    BackToStart(S, N);
  }

  lemma MeetsInHeap(pool: array<Node>, S: nat, p: nat)
    requires p < pool.Length && Distinct(pool[..])
    requires forall k: nat :: Followed(pool, k) == pool[Position(k, S, pool.Length)]
    ensures Meets(p, S, pool.Length) <==> MeetsNode(pool, p)
  {
    hide Position, Followed;
    var N := pool.Length;
    if Meets(p, S, N) {
      var k: nat :| k < N && Position(k, S, N) == p;
      assert Followed(pool, k) == pool[p];
    }
    if MeetsNode(pool, p) {
      var k: nat :| k < N && Followed(pool, k) == pool[p];
      var q := Position(k, S, N);
      assert pool[..][q] == pool[q] && pool[..][p] == pool[p];
      assert q == p;
    }
  }

  lemma BackToStart(S: nat, N: nat)
    requires N > 0
    ensures Position(N, S, N) == 0
  {
    Around(N, S, N);
    FirstPosition(S, N);
  }
}
