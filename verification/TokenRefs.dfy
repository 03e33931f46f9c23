/** Whole-value `{path.to.token}` references and their in-place resolution. */
module TokenRefs {
  import opened Sequences

  /** A token's dotted path, such as color.brand.primary. */
  datatype Path = Path(name: string)

  /** A token value as the resolver sees it: a whole-value reference, other text, or a number. */
  datatype Value = Ref(path: Path) | Str(text: string) | Num(n: real)

  type TokenMap = map<Path, Value>

  /** What resolution ends with: the resolved map, or one of the two errors it throws. */
  datatype Outcome =
    | Resolved(tokens: TokenMap)
    | Unresolved(key: Path, missing: Path)
    | Circular(keys: seq<Path>)

  /** Reads text: braces around a non-empty path without `}` are a reference, anything else is plain. */
  function Read(text: string): (v: Value)
    ensures !v.Num? && Write(v) == text
    ensures v.Ref? <==> exists p: string :: p != [] && '}' !in p && text == "{" + p + "}"
  {
    if |text| < 3 then Str(text) else
    var inner := text[1..|text| - 1];
    if text[0] == '{' && text[|text| - 1] == '}' && '}' !in inner then
      assert text == "{" + inner + "}";
      Ref(Path(inner))
    else
      Str(text)
  }

  function Write(v: Value): string
    requires !v.Num?
  {
    if v.Ref? then "{" + v.path.name + "}" else v.text
  }

  predicate Dangling(f: TokenMap, v: Value) {
    v.Ref? && v.path !in f
  }

  /** One hop: the value a reference stands for; any other value stands for itself. */
  function Next(f: TokenMap, v: Value): Value {
    if v.Ref? && v.path in f then f[v.path] else v
  }

  ghost function Follow(f: TokenMap, v: Value, n: nat): Value
    decreases n
  {
    if n == 0 then v else Follow(f, Next(f, v), n - 1)
  }

  ghost predicate Settled(f: TokenMap, v: Value) {
    Next(f, v) == v
  }

  /** The value at the end of a key's reference chain. */
  ghost predicate EndsIn(f: TokenMap, k: Path, v: Value)
    requires k in f
  {
    !v.Ref? && exists n: nat :: Follow(f, f[k], n) == v
  }

  /** The chain of k meets the same reference twice. */
  ghost predicate EntersCycle(f: TokenMap, k: Path)
    requires k in f
  {
    exists i: nat, p: nat :: p > 0 && MeetsTwice(f, f[k], i, p)
  }

  ghost predicate MeetsTwice(f: TokenMap, v: Value, i: nat, p: nat) {
    var w := Follow(f, v, i);
    w.Ref? && Follow(f, w, p) == w
  }

  ghost predicate NoDangling(f: TokenMap) {
    forall k {:trigger Dangling(f, f[k])} | k in f :: !Dangling(f, f[k])
  }

  ghost predicate Within(order: seq<Path>, keys: set<Path>) {
    forall i | 0 <= i < |order| :: order[i] in keys
  }

  ghost predicate Listed(k: Path, order: seq<Path>) {
    k in order
  }

  /** order is some iteration order of the keys: each of them once. */
  ghost predicate Enumerates(order: seq<Path>, keys: set<Path>) {
    && (forall i, j | 0 <= i < j < |order| :: order[i] != order[j])
    && Within(order, keys)
    && (forall k {:trigger Listed(k, order)} | k in keys :: Listed(k, order))
  }

  // ----- following chains -----

  lemma {:induction false} FollowAdd(f: TokenMap, v: Value, a: nat, b: nat)
    ensures Follow(f, v, a + b) == Follow(f, Follow(f, v, a), b)
    decreases a
  {
    if a > 0 {
      FollowAdd(f, Next(f, v), a - 1, b);
    }
  }

  lemma {:induction false} FollowSettled(f: TokenMap, v: Value, n: nat)
    requires Settled(f, v)
    ensures Follow(f, v, n) == v
  {
    if n > 0 {
      FollowSettled(f, v, n - 1);
    }
  }

  lemma FollowPast(f: TokenMap, v: Value, n: nat, m: nat)
    requires n <= m && Settled(f, Follow(f, v, n))
    ensures Follow(f, v, m) == Follow(f, v, n)
  {
    FollowAdd(f, v, n, m - n);
    FollowSettled(f, Follow(f, v, n), m - n);
  }

  lemma {:induction false} FollowPeriod(f: TokenMap, v: Value, p: nat, j: nat, c: nat)
    requires Follow(f, v, p) == v
    ensures Follow(f, v, j * p + c) == Follow(f, v, c)
    decreases j
  {
    if j > 0 {
      assert j * p + c == p + ((j - 1) * p + c);
      FollowAdd(f, v, p, (j - 1) * p + c);
      FollowPeriod(f, v, p, j - 1, c);
    }
  }

  /** A chain that ends never meets a reference twice, and it has one end. */
  lemma EndsOrCycles(f: TokenMap, k: Path, v: Value)
    requires k in f && EndsIn(f, k, v)
    ensures !EntersCycle(f, k)
    ensures forall w :: EndsIn(f, k, w) ==> w == v
  {
    var n: nat :| Follow(f, f[k], n) == v;
    if EntersCycle(f, k) {
      var i: nat, p: nat :| p > 0 && MeetsTwice(f, f[k], i, p);
      var w := Follow(f, f[k], i);
      FollowPeriod(f, w, p, n, 0);
      FollowAdd(f, f[k], i, n * p);
      assert n * p >= n;
      FollowPast(f, f[k], n, i + n * p);
      assert false;
    }
    forall w | EndsIn(f, k, w) ensures w == v {
      var m: nat :| Follow(f, f[k], m) == w;
      FollowPast(f, f[k], n, n + m);
      FollowPast(f, f[k], m, n + m);
    }
  }

  // ----- one in-place update, and a sweep of them -----

  /** The turn of one key: its value is replaced by what that value refers to. */
  function Step(f: TokenMap, x: Path): TokenMap
    requires x in f
  {
    f[x := Next(f, f[x])]
  }

  /** The turns of `keys`, left to right, each reading the values written before it. */
  function Sweep(f: TokenMap, keys: seq<Path>): (g: TokenMap)
    requires Within(keys, f.Keys)
    ensures g.Keys == f.Keys
  {
    if keys == [] then f else Sweep(Step(f, keys[0]), keys[1..])
  }

  ghost function Sweeps(f: TokenMap, keys: seq<Path>, r: nat): (g: TokenMap)
    requires Within(keys, f.Keys)
    ensures g.Keys == f.Keys
  {
    if r == 0 then f else Sweep(Sweeps(f, keys, r - 1), keys)
  }

  lemma {:induction false} SweepSnoc(f: TokenMap, keys: seq<Path>, x: Path)
    requires x in f && Within(keys, f.Keys)
    ensures Sweep(f, keys + [x]) == Step(Sweep(f, keys), x)
  {
    if keys == [] {
      assert Sweep(Step(f, x), []) == Step(f, x);
      assert (keys + [x])[1..] == [];
    } else {
      SweepSnoc(Step(f, keys[0]), keys[1..], x);
      assert (keys + [x])[1..] == keys[1..] + [x];
    }
  }

  /** After a turn, every chain runs over the same values, only faster. */
  lemma {:induction false} StepFollow(f: TokenMap, x: Path, v: Value, n: nat) returns (m: nat)
    requires x in f
    ensures m >= n && Follow(Step(f, x), v, n) == Follow(f, v, m)
    decreases n
  {
    if n == 0 {
      return 0;
    }
    var w := Next(Step(f, x), v);
    var m' := StepFollow(f, x, w, n - 1);
    if v == Ref(x) {
      FollowAdd(f, v, 2, m');
      assert w == Follow(f, v, 2);
      return 2 + m';
    } else {
      FollowAdd(f, v, 1, m');
      assert w == Follow(f, v, 1);
      return 1 + m';
    }
  }

  /** After a sweep a key holds a value of its own earlier chain; a key that had its turn has moved on. */
  lemma {:induction false} SweepAdvances(f: TokenMap, keys: seq<Path>, k: Path) returns (h: nat)
    requires k in f && Within(keys, f.Keys)
    ensures Sweep(f, keys)[k] == Follow(f, f[k], h)
    ensures k in keys ==> h >= 1
  {
    if keys == [] {
      return 0;
    }
    var x := keys[0];
    var f1 := Step(f, x);
    var h' := SweepAdvances(f1, keys[1..], k);
    var m := StepFollow(f, x, f1[k], h');
    if k == x {
      FollowAdd(f, f[k], 1, m);
      assert f1[k] == Follow(f, f[k], 1);
      return 1 + m;
    } else {
      return m;
    }
  }

  ghost predicate Ahead(f: TokenMap, g: TokenMap, k: Path, h: nat)
    requires k in f && k in g
  {
    exists m: nat :: m >= h && g[k] == Follow(f, f[k], m)
  }

  /** g holds, at every key, a value at least h hops along the key's chain in f. */
  ghost predicate AllAhead(f: TokenMap, g: TokenMap, h: nat) {
    g.Keys == f.Keys && forall k {:trigger Ahead(f, g, k, h)} | k in f :: Ahead(f, g, k, h)
  }

  lemma SweepAllAhead(f: TokenMap, keys: seq<Path>)
    requires Enumerates(keys, f.Keys)
    ensures AllAhead(f, Sweep(f, keys), 1)
  {
    forall k | k in f ensures Ahead(f, Sweep(f, keys), k, 1) {
      assert Listed(k, keys);
      var h := SweepAdvances(f, keys, k);
    }
  }

  /** Hopping in a map that is h hops ahead covers at least h more hops at each hop. */
  lemma {:induction false} AheadFollow(f: TokenMap, g: TokenMap, h: nat, k: Path, n: nat) returns (m: nat)
    requires k in f && AllAhead(f, g, h)
    ensures Follow(g, g[k], n) == Follow(f, f[k], m)
    ensures m >= h && (n >= 1 ==> m >= 2 * h + 1) && (h >= 1 ==> m >= 2 * n + 1)
    decreases n
  {
    assert Ahead(f, g, k, h);
    var m0: nat :| m0 >= h && g[k] == Follow(f, f[k], m0);
    if n == 0 {
      return m0;
    }
    if g[k].Ref? && g[k].path in f {
      var r := g[k].path;
      var m1 := AheadFollow(f, g, h, r, n - 1);
      FollowAdd(f, f[k], m0, m1 + 1);
      return m0 + m1 + 1;
    } else {
      FollowSettled(g, g[k], n);
      m := m0 + h + 2 * n + 1;
      FollowPast(f, f[k], m0, m);
    }
  }

  ghost function Pow2(r: nat): nat
    ensures Pow2(r) >= 1
  {
    if r == 0 then 1 else 2 * Pow2(r - 1)
  }

  lemma AheadCompose(f: TokenMap, g: TokenMap, g': TokenMap, h: nat)
    requires AllAhead(f, g, h) && AllAhead(g, g', 1)
    ensures AllAhead(f, g', 2 * h + 1)
  {
    forall k | k in f ensures Ahead(f, g', k, 2 * h + 1) {
      assert Ahead(g, g', k, 1);
      var n: nat :| n >= 1 && g'[k] == Follow(g, g[k], n);
      var m := AheadFollow(f, g, h, k, n);
    }
  }

  lemma AheadSelf(f: TokenMap)
    ensures AllAhead(f, f, 0)
  {
    forall k | k in f ensures Ahead(f, f, k, 0) {
      assert f[k] == Follow(f, f[k], 0);
    }
  }

  /** Each sweep doubles the distance covered: after r sweeps, at least 2^r - 1 hops. */
  lemma {:induction false} SweepsDouble(f: TokenMap, keys: seq<Path>, r: nat)
    requires Enumerates(keys, f.Keys)
    ensures AllAhead(f, Sweeps(f, keys, r), Pow2(r) - 1)
  {
    if r == 0 {
      AheadSelf(f);
    } else {
      var g := Sweeps(f, keys, r - 1);
      SweepsDouble(f, keys, r - 1);
      SweepAllAhead(g, keys);
      var h: nat, h': nat := Pow2(r - 1) - 1, Pow2(r) - 1;
      assert h' == 2 * h + 1;
      AheadCompose(f, g, Sweep(g, keys), h);
    }
  }

  // ----- how far a map is from settled -----

  ghost predicate SettledBy(f: TokenMap, d: nat) {
    forall k {:trigger Follow(f, f[k], d)} | k in f :: Settled(f, Follow(f, f[k], d))
  }

  /** A sweep halves the number of hops after which every chain has settled. */
  lemma SweepHalves(f: TokenMap, keys: seq<Path>, d: nat)
    requires Enumerates(keys, f.Keys) && SettledBy(f, d)
    ensures SettledBy(Sweep(f, keys), d / 2)
  {
    var g := Sweep(f, keys);
    SweepAllAhead(f, keys);
    forall k | k in g ensures Settled(g, Follow(g, g[k], d / 2)) {
      var m := AheadFollow(f, g, 1, k, d / 2);
      FollowPast(f, f[k], d, m);
      var s := Follow(f, f[k], d);
      if s.Ref? && s.path in f {
        var r := s.path;
        assert Ahead(f, g, r, 1);
        var h: nat :| g[r] == Follow(f, f[r], h);
        FollowSettled(f, s, h);
      }
    }
  }

  // ----- cycles -----

  ghost predicate OnCycle(f: TokenMap, k: Path) {
    k in f && exists n: nat :: Follow(f, f[k], n) == Ref(k)
  }

  ghost function CycleKeys(f: TokenMap): set<Path> {
    set k | k in f && OnCycle(f, k)
  }

  /** k lies on a cycle of two or more keys. */
  ghost predicate OnLongCycle(f: TokenMap, k: Path) {
    OnCycle(f, k) && !Settled(f, f[k])
  }

  ghost predicate HasLongCycle(f: TokenMap) {
    exists k :: OnLongCycle(f, k)
  }

  /** No turn ever puts a key on a cycle. */
  lemma StepCycles(f: TokenMap, x: Path)
    requires x in f
    ensures CycleKeys(Step(f, x)) <= CycleKeys(f)
  {
    var f1 := Step(f, x);
    forall k | OnCycle(f1, k) ensures OnCycle(f, k) {
      var n: nat :| Follow(f1, f1[k], n) == Ref(k);
      var m := StepFollow(f, x, f1[k], n);
      if k == x {
        assert Follow(f, f[k], m + 1) == Ref(k);
      }
    }
  }

  /** The key that points at a value on a cycle through it is unique. */
  lemma CycleInjective(f: TokenMap, x: Path, y: Path)
    requires OnCycle(f, x) && OnCycle(f, y) && f[x] == f[y]
    ensures x == y
  {
    var v := f[x];
    var a: nat :| Follow(f, v, a) == Ref(x);
    var b: nat :| Follow(f, v, b) == Ref(y);
    FollowAdd(f, v, a, 1);
    FollowAdd(f, v, b, 1);
    FollowPeriod(f, v, a + 1, b, a);
    FollowPeriod(f, v, b + 1, a, b);
    assert b * (a + 1) + a == a * (b + 1) + b;
  }

  /** Where the last hop of a chain of f1 lands on v from elsewhere. */
  lemma {:induction false} LastHop(f: TokenMap, v: Value, n: nat)
    requires n > 0
    ensures Follow(f, v, n) == Next(f, Follow(f, v, n - 1))
  {
    FollowAdd(f, v, n - 1, 1);
    assert Follow(f, Follow(f, v, n - 1), 1) == Next(f, Follow(f, v, n - 1));
  }

  /** The turn of a key on a long cycle takes the next key out of that cycle. */
  lemma StepShortcuts(f: TokenMap, x: Path)
    requires OnLongCycle(f, x)
    ensures f[x].Ref? && f[x].path in CycleKeys(f) && f[x].path !in CycleKeys(Step(f, x))
  {
    var v, f1 := f[x], Step(f, x);
    var r := v.path;
    NextOnCycle(f, x);
    if OnCycle(f1, r) {
      var n: nat :| Follow(f1, f1[r], n) == v;
      assert n > 0;
      var w := Follow(f1, f[r], n - 1);
      LastHop(f1, f[r], n);
      var m := StepFollow(f, x, f[r], n - 1);
      assert w.Ref? && w.path != x && f[w.path] == v;
      FollowAdd(f, f[w.path], 1, m);
      assert OnCycle(f, w.path);
      CycleInjective(f, x, w.path);
      assert false;
    }
  }

  /** The key named by a key on a cycle is on the cycle too, and the cycle is as long for it. */
  lemma NextOnCycle(f: TokenMap, k: Path)
    requires OnLongCycle(f, k)
    ensures f[k].Ref? && OnLongCycle(f, f[k].path) && f[k].path != k
  {
    var v := f[k];
    var n: nat :| Follow(f, v, n) == Ref(k);
    var r := v.path;
    FollowAdd(f, v, 1, n);
    LastHop(f, v, n + 1);
    assert Follow(f, f[r], n) == v;
    if Settled(f, f[r]) {
      FollowSettled(f, f[r], n);
    }
  }

  /** A sweep over a map with a long cycle leaves strictly fewer keys on cycles. */
  lemma {:induction false} SweepShrinks(f: TokenMap, keys: seq<Path>, k: Path)
    requires k in keys && OnLongCycle(f, k) && Within(keys, f.Keys)
    ensures CycleKeys(Sweep(f, keys)) < CycleKeys(f)
  {
    var x, rest := keys[0], keys[1..];
    var f1 := Step(f, x);
    StepCycles(f, x);
    if OnLongCycle(f, x) {
      StepShortcuts(f, x);
      SweepCycles(f1, rest);
    } else if CycleKeys(f1) < CycleKeys(f) {
      SweepCycles(f1, rest);
    } else {
      NextOnCycle(f, k);
      assert f1[k] == f[k] && f1[f[k].path] == f[f[k].path];
      assert CycleKeys(f) == CycleKeys(f1);
      assert k in CycleKeys(f1);
      SweepShrinks(f1, rest, k);
    }
  }

  lemma {:induction false} SweepCycles(f: TokenMap, keys: seq<Path>)
    requires Within(keys, f.Keys)
    ensures CycleKeys(Sweep(f, keys)) <= CycleKeys(f)
  {
    if keys != [] {
      StepCycles(f, keys[0]);
      SweepCycles(Step(f, keys[0]), keys[1..]);
    }
  }

  /** The keys that lie on cycles of two or more keys. */
  ghost function LongKeys(f: TokenMap): set<Path> {
    set k | k in f && OnLongCycle(f, k)
  }

  /** No turn puts a key on such a cycle either. */
  lemma StepLongKeys(f: TokenMap, x: Path)
    requires x in f
    ensures LongKeys(Step(f, x)) <= LongKeys(f)
  {
    StepCycles(f, x);
    forall k | k in LongKeys(Step(f, x)) ensures OnLongCycle(f, k) {
      assert k in CycleKeys(f);
      var n: nat :| Follow(f, f[k], n) == Ref(k);
      if Settled(f, f[k]) {
        FollowSettled(f, f[k], n);
      }
    }
  }

  lemma {:induction false} SweepLongKeys(f: TokenMap, keys: seq<Path>)
    requires Within(keys, f.Keys)
    ensures LongKeys(Sweep(f, keys)) <= LongKeys(f)
  {
    if keys != [] {
      StepLongKeys(f, keys[0]);
      SweepLongKeys(Step(f, keys[0]), keys[1..]);
    }
  }

  /** Every key that is still on a long cycle after its turn has taken another key off for good. */
  lemma {:induction false} TurnsTakeKeysOff(f: TokenMap, keys: seq<Path>)
    requires Within(keys, f.Keys)
    ensures var last := LongKeys(Sweep(f, keys));
      |last| + |set k | k in keys && k in last| <= |LongKeys(f)|
  {
    var last := LongKeys(Sweep(f, keys));
    if keys == [] {
      assert (set k | k in keys && k in last) == {};
    } else {
      var x, rest := keys[0], keys[1..];
      var f1 := Step(f, x);
      TurnsTakeKeysOff(f1, rest);
      StepLongKeys(f, x);
      SweepLongKeys(f1, rest);
      var before, after := (set k | k in rest && k in last), (set k | k in keys && k in last);
      assert keys == [x] + rest;
      if x in last {
        StepShortcuts(f, x);
        NextOnCycle(f, x);
        var off := f[x].path;
        assert off in LongKeys(f) && off !in LongKeys(f1);
        SubsetSmaller(LongKeys(f1), LongKeys(f));
        assert after <= before + {x};
        SubsetNotLarger(after, before + {x});
      } else {
        assert after == before;
        SubsetNotLarger(LongKeys(f1), LongKeys(f));
      }
    }
  }

  /** A sweep halves the number of keys on long cycles. */
  lemma SweepHalvesCycles(f: TokenMap, keys: seq<Path>)
    requires Enumerates(keys, f.Keys)
    ensures |LongKeys(Sweep(f, keys))| <= |LongKeys(f)| / 2
  {
    hide OnLongCycle;
    var last := LongKeys(Sweep(f, keys));
    TurnsTakeKeysOff(f, keys);
    forall k | k in last ensures k in keys {
      assert Listed(k, keys);
    }
    assert (set k | k in keys && k in last) == last;
  }

  // ----- every map becomes stable -----

  ghost predicate Stable(f: TokenMap) {
    forall k {:trigger Settled(f, f[k])} | k in f :: Settled(f, f[k])
  }

  /** Without long cycles a chain settles within as many hops as there are keys. */
  lemma ChainsSettle(f: TokenMap)
    requires !HasLongCycle(f)
    ensures SettledBy(f, |f|)
  {
    forall k | k in f ensures Settled(f, Follow(f, f[k], |f|)) {
      var v, d := f[k], |f|;
      if !Settled(f, Follow(f, v, d)) {
        forall i | 0 <= i <= d ensures !Settled(f, Follow(f, v, i)) {
          if Settled(f, Follow(f, v, i)) {
            FollowPast(f, v, i, d);
          }
        }
        var s := seq(d + 1, i requires 0 <= i <= d => Follow(f, v, i).path);
        forall i, j | 0 <= i < j < |s| ensures s[i] != s[j] {
          if s[i] == s[j] {
            Repeats(f, v, i, j);
          }
        }
        DistinctFit(s, f.Keys);
        assert false;
      }
    }
  }

  /** A chain that comes back to an unsettled reference runs into a long cycle. */
  lemma Repeats(f: TokenMap, v: Value, i: nat, j: nat)
    requires i < j && Follow(f, v, i) == Follow(f, v, j)
    requires !Settled(f, Follow(f, v, i)) && !Settled(f, Follow(f, v, i + 1))
    ensures HasLongCycle(f)
  {
    var w := Follow(f, v, i);
    LastHop(f, v, i + 1);
    FollowAdd(f, v, i + 1, j - i - 1);
    assert OnLongCycle(f, w.path);
  }

  /** How often a number can be halved before it is zero. */
  ghost function Bits(d: nat): nat {
    if d == 0 then 0 else 1 + Bits(d / 2)
  }

  /** Bits(d) is the logarithm of d + 1 to base 2, rounded up. */
  lemma {:induction false} BitsIsLog(d: nat)
    ensures d + 1 <= Pow2(Bits(d))
    ensures d > 0 ==> Pow2(Bits(d) - 1) < d + 1
  {
    if d > 0 {
      BitsIsLog(d / 2);
    }
  }

  lemma {:induction false} SweepsShift(f: TokenMap, keys: seq<Path>, r: nat)
    requires Within(keys, f.Keys)
    ensures Sweeps(Sweep(f, keys), keys, r) == Sweeps(f, keys, r + 1)
  {
    if r > 0 {
      SweepsShift(f, keys, r - 1);
    }
  }

  /** A map whose chains settle within d hops is stable after Bits(d) sweeps. */
  lemma {:induction false} SettlesInBits(f: TokenMap, keys: seq<Path>, d: nat)
    requires Enumerates(keys, f.Keys) && SettledBy(f, d)
    ensures Stable(Sweeps(f, keys, Bits(d)))
  {
    if d == 0 {
      forall k | k in f ensures Settled(f, f[k]) {
        assert Settled(f, Follow(f, f[k], 0));
      }
    } else {
      SweepHalves(f, keys, d);
      SettlesInBits(Sweep(f, keys), keys, d / 2);
      SweepsShift(f, keys, Bits(d / 2));
    }
  }

  lemma {:induction false} BitsMonotone(a: nat, b: nat)
    requires a <= b
    ensures Bits(a) <= Bits(b)
    decreases b
  {
    if b > 0 {
      BitsMonotone(a / 2, b / 2);
    }
  }

  lemma SomeLongKey(f: TokenMap)
    requires HasLongCycle(f)
    ensures |LongKeys(f)| > 0
  {
    var k :| OnLongCycle(f, k);
    assert k in LongKeys(f);
  }

  /** Every map, cyclic or not, becomes stable in logarithmic time: first its long cycles go, then its chains settle. */
  lemma {:induction false} EventuallyStable(f: TokenMap, keys: seq<Path>) returns (r: nat)
    requires Enumerates(keys, f.Keys)
    ensures r <= Bits(|LongKeys(f)|) + Bits(|f|)
    ensures Stable(Sweeps(f, keys, r))
    decreases |LongKeys(f)|
  {
    hide Sweep, Stable, SettledBy, HasLongCycle;
    if HasLongCycle(f) {
      var g := Sweep(f, keys);
      SomeLongKey(f);
      SweepHalvesCycles(f, keys);
      BitsMonotone(|LongKeys(g)|, |LongKeys(f)| / 2);
      assert |g| == |g.Keys| == |f.Keys| == |f|;
      r := EventuallyStable(g, keys);
      SweepsShift(f, keys, r);
      r := r + 1;
    } else {
      ChainsSettle(f);
      SettlesInBits(f, keys, |f|);
      r := Bits(|f|);
    }
  }

  lemma SubsetSmaller<T>(a: set<T>, b: set<T>)
    requires a < b
    ensures |a| < |b|
  {
    var x :| x in b && x !in a;
    SubsetNotLarger(a, b - {x});
  }

  lemma {:induction false} SubsetNotLarger<T>(a: set<T>, b: set<T>)
    requires a <= b
    ensures |a| <= |b|
    decreases |a|
  {
    if a != {} {
      var x :| x in a;
      SubsetNotLarger(a - {x}, b - {x});
    }
  }

  // ----- what a stable map says about the input -----

  lemma StepNoDangling(f: TokenMap, x: Path)
    requires x in f && NoDangling(f)
    ensures NoDangling(Step(f, x))
  {
    var f1 := Step(f, x);
    forall k | k in f1 ensures !Dangling(f1, f1[k]) {
      assert !Dangling(f, f[k]);
      if k == x && f[x].Ref? {
        assert !Dangling(f, f[f[x].path]);
      }
    }
  }

  lemma {:induction false} SweepNoDangling(f: TokenMap, keys: seq<Path>)
    requires NoDangling(f) && Within(keys, f.Keys)
    ensures NoDangling(Sweep(f, keys))
  {
    if keys != [] {
      StepNoDangling(f, keys[0]);
      SweepNoDangling(Step(f, keys[0]), keys[1..]);
    }
  }

  /** In a stable map reached by sweeping, plain values end the input chains and references mark cycles. */
  lemma StableTells(f: TokenMap, g: TokenMap, k: Path)
    requires AllAhead(f, g, 0) && Stable(g) && NoDangling(g) && k in f
    ensures g[k].Ref? ==> EntersCycle(f, k)
    ensures !g[k].Ref? ==> EndsIn(f, k, g[k])
  {
    assert Ahead(f, g, k, 0);
    var h: nat :| g[k] == Follow(f, f[k], h);
    if g[k].Ref? {
      var r := g[k].path;
      assert Settled(g, g[k]) && !Dangling(g, g[k]);
      assert g[r] == g[k];
      assert Ahead(f, g, r, 0);
      var m: nat :| g[r] == Follow(f, f[r], m);
      assert Follow(f, Ref(r), m + 1) == Follow(f, f[r], m);
      assert MeetsTwice(f, f[k], h, m + 1);
    }
  }

  /** The keys of `order` whose chains enter a cycle, in that order. */
  ghost function CircularKeys(f: TokenMap, order: seq<Path>): seq<Path>
    requires Within(order, f.Keys)
  {
    if order == [] then [] else
    (if EntersCycle(f, order[0]) then [order[0]] else []) + CircularKeys(f, order[1..])
  }

  function RefKeys(g: TokenMap, order: seq<Path>): seq<Path>
    requires Within(order, g.Keys)
  {
    if order == [] then [] else
    (if g[order[0]].Ref? then [order[0]] else []) + RefKeys(g, order[1..])
  }

  lemma {:induction false} RefKeysAreCircular(f: TokenMap, g: TokenMap, order: seq<Path>)
    requires AllAhead(f, g, 0) && Stable(g) && NoDangling(g)
    requires Within(order, f.Keys)
    ensures RefKeys(g, order) == CircularKeys(f, order)
  {
    if order != [] {
      var k := order[0];
      StableTells(f, g, k);
      if !g[k].Ref? {
        EndsOrCycles(f, k, g[k]);
      }
      RefKeysAreCircular(f, g, order[1..]);
    }
  }

  lemma {:induction false} InCircularKeys(f: TokenMap, order: seq<Path>, k: Path)
    requires Within(order, f.Keys)
    ensures k in CircularKeys(f, order) <==> k in order && EntersCycle(f, k)
  {
    if order != [] {
      InCircularKeys(f, order[1..], k);
    }
  }

  // ----- the specification -----

  /** The first key of `order` holding a dangling reference is reported, if there is one; otherwise the
      keys that enter a cycle, if there are any; otherwise every key holds the end of its chain. */
  ghost predicate Explains(tokens: TokenMap, order: seq<Path>, out: Outcome)
    requires Enumerates(order, tokens.Keys)
  {
    match out
    case Unresolved(key, missing) =>
      exists i :: 0 <= i < |order| && order[i] == key
        && tokens[key] == Ref(missing) && missing !in tokens
        && forall j | 0 <= j < i :: !Dangling(tokens, tokens[order[j]])
    case Circular(keys) =>
      NoDangling(tokens) && keys != [] && keys == CircularKeys(tokens, order)
    case Resolved(m) =>
      NoDangling(tokens) && m.Keys == tokens.Keys && forall k | k in tokens :: EndsIn(tokens, k, m[k])
  }

  /** One pass of the resolver over a snapshot: the map after i turns, and whether it changed. */
  ghost function Turns(entries: TokenMap, order: seq<Path>, i: nat): (r: (TokenMap, bool))
    requires Within(order, entries.Keys) && i <= |order|
    ensures r.0.Keys == entries.Keys
  {
    if i == 0 then (entries, false) else
    var (f, changed) := Turns(entries, order, i - 1);
    var x := order[i - 1];
    var target := Next(f, entries[x]);
    if target != entries[x] then (f[x := target], true) else (f, changed)
  }

  lemma TurnAt(entries: TokenMap, order: seq<Path>, i: nat)
    requires Within(order, entries.Keys) && i < |order|
    ensures var (f, changed) := Turns(entries, order, i);
      var target := Next(f, entries[order[i]]);
      Turns(entries, order, i + 1) ==
        if target != entries[order[i]] then (f[order[i] := target], true) else (f, changed)
  {
  }

  /** The snapshot does not matter: each key is still unchanged at its own turn. */
  lemma {:induction false} TurnsLater(entries: TokenMap, order: seq<Path>, i: nat, j: nat)
    requires Enumerates(order, entries.Keys) && i <= j < |order|
    ensures Turns(entries, order, i).0[order[j]] == entries[order[j]]
  {
    if i > 0 {
      TurnsLater(entries, order, i - 1, j);
    }
  }

  lemma SweepPrefix(f: TokenMap, order: seq<Path>, i: nat)
    requires Within(order, f.Keys) && i < |order|
    ensures Sweep(f, order[..i + 1]) == Step(Sweep(f, order[..i]), order[i])
  {
    assert order[..i + 1] == order[..i] + [order[i]];
    SweepSnoc(f, order[..i], order[i]);
  }

  lemma TurnIsStep(entries: TokenMap, order: seq<Path>, i: nat)
    requires Enumerates(order, entries.Keys) && i < |order|
    ensures Turns(entries, order, i + 1).0 == Step(Turns(entries, order, i).0, order[i])
  {
    TurnAt(entries, order, i);
    TurnsLater(entries, order, i, i);
    var f, x := Turns(entries, order, i).0, order[i];
    if Settled(f, f[x]) {
      assert f[x := f[x]] == f;
    }
  }

  lemma {:induction false} TurnsSweep(entries: TokenMap, order: seq<Path>, i: nat)
    requires Enumerates(order, entries.Keys) && i <= |order|
    ensures Turns(entries, order, i).0 == Sweep(entries, order[..i])
  {
    if i == 0 {
      assert order[..0] == [];
    } else {
      hide Turns, Sweep, Step;
      TurnsSweep(entries, order, i - 1);
      TurnIsStep(entries, order, i - 1);
      SweepPrefix(entries, order, i - 1);
    }
  }

  lemma {:induction false} TurnsUnchanged(entries: TokenMap, order: seq<Path>, i: nat)
    requires Enumerates(order, entries.Keys) && i <= |order| && !Turns(entries, order, i).1
    ensures Turns(entries, order, i).0 == entries
    ensures forall j | 0 <= j < i :: Settled(entries, entries[order[j]])
  {
    if i > 0 {
      TurnsUnchanged(entries, order, i - 1);
    }
  }

  lemma {:induction false} TurnsChanged(entries: TokenMap, order: seq<Path>, i: nat)
    requires Enumerates(order, entries.Keys) && i <= |order| && Turns(entries, order, i).1
    ensures !Stable(entries)
  {
    if Turns(entries, order, i - 1).1 {
      TurnsChanged(entries, order, i - 1);
    } else {
      TurnsUnchanged(entries, order, i - 1);
      assert !Settled(entries, entries[order[i - 1]]);
    }
  }

  lemma SweepDone(entries: TokenMap, order: seq<Path>)
    requires Enumerates(order, entries.Keys)
    ensures Turns(entries, order, |order|) == (Sweep(entries, order), !Stable(entries))
    ensures Stable(entries) ==> Sweep(entries, order) == entries
  {
    TurnsSweep(entries, order, |order|);
    assert order[..|order|] == order;
    if Turns(entries, order, |order|).1 {
      TurnsChanged(entries, order, |order|);
    } else {
      TurnsUnchanged(entries, order, |order|);
      forall k | k in entries ensures Settled(entries, entries[k]) {
        assert Listed(k, order);
        var j :| 0 <= j < |order| && order[j] == k;
      }
    }
  }

  /** No sweep before the n-th started from a stable map. */
  ghost predicate Busy(f: TokenMap, order: seq<Path>, n: nat)
    requires Within(order, f.Keys)
  {
    n == 0 || (Busy(f, order, n - 1) && !Stable(Sweeps(f, order, n - 1)))
  }

  lemma {:induction false} BusyBefore(f: TokenMap, order: seq<Path>, n: nat, last: nat)
    requires Within(order, f.Keys) && Stable(Sweeps(f, order, last)) && Busy(f, order, n)
    ensures n <= last
  {
    if n > 0 {
      BusyBefore(f, order, n - 1, last);
    }
  }

  lemma BoundFromBusy(f: TokenMap, order: seq<Path>, n: nat)
    requires Enumerates(order, f.Keys)
    requires Busy(f, order, n)
    ensures forall d: nat | SettledBy(f, d) :: n <= Bits(d)
  {
    forall d: nat | SettledBy(f, d) ensures n <= Bits(d) {
      SettlesInBits(f, order, d);
      BusyBefore(f, order, n, Bits(d));
    }
  }

  ghost predicate NoneDanglingBefore(f: TokenMap, order: seq<Path>, i: nat)
    requires Within(order, f.Keys) && i <= |order|
  {
    i == 0 || (NoneDanglingBefore(f, order, i - 1) && !Dangling(f, f[order[i - 1]]))
  }

  lemma NextNotDangling(f: TokenMap, order: seq<Path>, i: nat)
    requires Within(order, f.Keys) && i < |order| && NoneDanglingBefore(f, order, i) && !Dangling(f, f[order[i]])
    ensures NoneDanglingBefore(f, order, i + 1)
  {
  }

  lemma {:induction false} NotDangling(f: TokenMap, order: seq<Path>, i: nat, j: nat)
    requires Within(order, f.Keys) && j < i <= |order| && NoneDanglingBefore(f, order, i)
    ensures !Dangling(f, f[order[j]])
  {
    if j < i - 1 {
      NotDangling(f, order, i - 1, j);
    }
  }

  lemma EnumeratedNoDangling(f: TokenMap, order: seq<Path>)
    requires Enumerates(order, f.Keys) && NoneDanglingBefore(f, order, |order|)
    ensures NoDangling(f)
  {
    forall k | k in f ensures !Dangling(f, f[k]) {
      assert Listed(k, order);
      var j :| 0 <= j < |order| && order[j] == k;
      NotDangling(f, order, |order|, j);
    }
  }

  lemma StableExplains(f: TokenMap, g: TokenMap, order: seq<Path>, h: nat)
    requires Enumerates(order, f.Keys) && AllAhead(f, g, h) && Stable(g) && NoDangling(f) && NoDangling(g)
    ensures var cyclic := RefKeys(g, order);
      Explains(f, order, if cyclic != [] then Circular(cyclic) else Resolved(g))
  {
    forall k | k in f ensures Ahead(f, g, k, 0) {
      assert Ahead(f, g, k, h);
    }
    RefKeysAreCircular(f, g, order);
    if RefKeys(g, order) == [] {
      forall k | k in f ensures EndsIn(f, k, g[k]) {
        assert Listed(k, order);
        StableTells(f, g, k);
        InCircularKeys(f, order, k);
      }
    }
  }

  // ----- what the specification implies -----

  /** Which outcome is decided by the input alone. */
  lemma OutcomeKind(tokens: TokenMap, order: seq<Path>, out: Outcome)
    requires Enumerates(order, tokens.Keys) && Explains(tokens, order, out)
    ensures out.Unresolved? <==> !NoDangling(tokens)
    ensures out.Circular? <==> NoDangling(tokens) && exists k :: k in tokens && EntersCycle(tokens, k)
  {
    match out
    case Unresolved(key, missing) =>
      assert Dangling(tokens, tokens[key]);
    case Circular(keys) =>
      InCircularKeys(tokens, order, keys[0]);
    case Resolved(m) =>
      forall k | k in tokens ensures !EntersCycle(tokens, k) {
        EndsOrCycles(tokens, k, m[k]);
      }
  }

  /** The iteration order of the keys changes neither the resolved map nor the set of circular keys. */
  lemma OrderIrrelevant(tokens: TokenMap, order: seq<Path>, out: Outcome, order': seq<Path>, out': Outcome)
    requires Enumerates(order, tokens.Keys) && Explains(tokens, order, out)
    requires Enumerates(order', tokens.Keys) && Explains(tokens, order', out')
    ensures out.Resolved? ==> out' == out
    ensures out.Circular? ==> out'.Circular? && forall k :: k in out.keys <==> k in out'.keys
    ensures out.Unresolved? ==> out'.Unresolved?
  {
    OutcomeKind(tokens, order, out);
    OutcomeKind(tokens, order', out');
    if out.Resolved? {
      forall k | k in tokens ensures out.tokens[k] == out'.tokens[k] {
        EndsOrCycles(tokens, k, out.tokens[k]);
      }
    } else if out.Circular? {
      forall k ensures k in out.keys <==> k in out'.keys {
        InCircularKeys(tokens, order, k);
        InCircularKeys(tokens, order', k);
        assert k in tokens ==> Listed(k, order) && Listed(k, order');
      }
    }
  }

  /** Resolving a resolved map gives it back. */
  lemma ResolvedIsFixed(tokens: TokenMap, order: seq<Path>, m: TokenMap, order': seq<Path>, out: Outcome)
    requires Enumerates(order, tokens.Keys) && Explains(tokens, order, Resolved(m))
    requires Enumerates(order', m.Keys) && Explains(m, order', out)
    ensures out == Resolved(m)
  {
    forall k | k in m ensures EndsIn(m, k, m[k]) {
      assert EndsIn(tokens, k, m[k]);
      assert Follow(m, m[k], 0) == m[k];
    }
    OrderIrrelevant(m, order', Resolved(m), order', out);
  }

  /** Without dangling references every chain either ends or enters a cycle, and never both. */
  lemma EndsXorCycles(tokens: TokenMap, order: seq<Path>, k: Path)
    requires Enumerates(order, tokens.Keys) && NoDangling(tokens) && k in tokens
    ensures (exists v :: EndsIn(tokens, k, v)) <==> !EntersCycle(tokens, k)
  {
    var r := EventuallyStable(tokens, order);
    var g := Sweeps(tokens, order, r);
    SweepsDouble(tokens, order, r);
    SweepsNoDangling(tokens, order, r);
    forall x | x in tokens ensures Ahead(tokens, g, x, 0) {
      assert Ahead(tokens, g, x, Pow2(r) - 1);
    }
    StableTells(tokens, g, k);
    if v :| EndsIn(tokens, k, v) {
      EndsOrCycles(tokens, k, v);
    }
  }

  lemma {:induction false} SweepsNoDangling(f: TokenMap, keys: seq<Path>, r: nat)
    requires NoDangling(f) && Within(keys, f.Keys)
    ensures NoDangling(Sweeps(f, keys, r))
  {
    if r > 0 {
      SweepsNoDangling(f, keys, r - 1);
      SweepNoDangling(Sweeps(f, keys, r - 1), keys);
    }
  }

  // ----- the resolver -----

  /** Where resolution stands after `sweeps` sweeps, all of which but perhaps the last changed something. */
  ghost predicate BetweenSweeps(tokens: TokenMap, order: seq<Path>, sweeps: nat, last: nat,
                                resolved: TokenMap, changed: bool)
    requires Enumerates(order, tokens.Keys)
  {
    && resolved == Sweeps(tokens, order, sweeps)
    && Stable(Sweeps(tokens, order, last))
    && (sweeps > 0 ==> NoDangling(tokens) && NoDangling(resolved))
    && (if changed then sweeps <= last && Busy(tokens, order, sweeps) else
          0 < sweeps <= last + 1 && Busy(tokens, order, sweeps - 1) && Stable(resolved))
  }

  lemma BeforeSweeps(tokens: TokenMap, order: seq<Path>, last: nat)
    requires Enumerates(order, tokens.Keys) && Stable(Sweeps(tokens, order, last))
    ensures BetweenSweeps(tokens, order, 0, last, tokens, true)
  {
  }

  lemma SweepCompleted(tokens: TokenMap, order: seq<Path>, sweeps: nat, last: nat,
                       entries: TokenMap, resolved: TokenMap, changed: bool)
    requires Enumerates(order, tokens.Keys) && Enumerates(order, entries.Keys)
    requires BetweenSweeps(tokens, order, sweeps, last, entries, true)
    requires (resolved, changed) == Turns(entries, order, |order|)
    requires NoneDanglingBefore(entries, order, |order|)
    ensures BetweenSweeps(tokens, order, sweeps + 1, last, resolved, changed)
    ensures resolved.Keys == tokens.Keys && sweeps + 1 <= if changed then last else last + 1
  {
    hide Turns, Sweep, Stable, Follow;
    SweepDone(entries, order);
    if changed {
      BusyBefore(tokens, order, sweeps + 1, last);
    }
    EnumeratedNoDangling(entries, order);
    SweepNoDangling(entries, order);
  }

  lemma Finished(tokens: TokenMap, order: seq<Path>, sweeps: nat, last: nat, resolved: TokenMap)
    requires Enumerates(order, tokens.Keys)
    requires BetweenSweeps(tokens, order, sweeps, last, resolved, false)
    ensures var cyclic := RefKeys(resolved, order);
      Explains(tokens, order, if cyclic != [] then Circular(cyclic) else Resolved(resolved))
    ensures FewSweeps(tokens, sweeps)
  {
    BoundFromBusy(tokens, order, sweeps - 1);
    SweepsDouble(tokens, order, sweeps);
    StableExplains(tokens, resolved, order, Pow2(sweeps) - 1);
  }

  /** No more sweeps than the logarithm of the longest chain, plus one that finds nothing to do. */
  ghost predicate FewSweeps(tokens: TokenMap, sweeps: nat) {
    forall d: nat | SettledBy(tokens, d) :: sweeps <= Bits(d) + 1
  }

  /** A dangling reference can only be met in the first sweep, and then it is the first one of the input. */
  lemma MetDangling(tokens: TokenMap, order: seq<Path>, sweeps: nat, last: nat, entries: TokenMap, i: nat)
    requires Enumerates(order, tokens.Keys) && Enumerates(order, entries.Keys) && i < |order|
    requires BetweenSweeps(tokens, order, sweeps, last, entries, true)
    requires NoneDanglingBefore(entries, order, i) && Dangling(entries, entries[order[i]])
    ensures Explains(tokens, order, Unresolved(order[i], entries[order[i]].path))
    ensures sweeps == 0 && FewSweeps(tokens, 0)
  {
    assert !NoDangling(entries) && entries == tokens;
    forall j | 0 <= j < i ensures !Dangling(tokens, tokens[order[j]]) {
      NotDangling(tokens, order, i, j);
    }
  }

  /** What the turn of key i does to the map, as the code decides it. */
  lemma TurnTaken(entries: TokenMap, order: seq<Path>, i: nat, resolved: TokenMap, changed: bool)
    requires Within(order, entries.Keys) && i < |order| && (resolved, changed) == Turns(entries, order, i)
    ensures var val := entries[order[i]];
      && (!val.Ref? || (val.path in resolved && resolved[val.path] == val) ==>
        Turns(entries, order, i + 1) == (resolved, changed))
      && (val.Ref? && val.path in resolved && resolved[val.path] != val ==>
            Turns(entries, order, i + 1) == (resolved[order[i] := resolved[val.path]], true))
  {
    TurnAt(entries, order, i);
    hide Turns;
  }

  lemma NoTurnYet(entries: TokenMap, order: seq<Path>)
    requires Within(order, entries.Keys)
    ensures Turns(entries, order, 0) == (entries, false) && NoneDanglingBefore(entries, order, 0)
  {
  }

  method ResolveRefs(tokens: TokenMap, order: seq<Path>) returns (out: Outcome, ghost sweeps: nat)
    requires Enumerates(order, tokens.Keys)
    ensures Explains(tokens, order, out)
    ensures sweeps <= Bits(|LongKeys(tokens)|) + Bits(|tokens|) + 1
    ensures FewSweeps(tokens, sweeps)
  {
    hide FewSweeps, Explains, BetweenSweeps, Turns, NoneDanglingBefore, RefKeys, LongKeys, Bits, Next;
    ghost var last := EventuallyStable(tokens, order);
    var resolved := tokens;
    var changed := true;
    sweeps := 0;
    BeforeSweeps(tokens, order, last);
    while changed
      invariant resolved.Keys == tokens.Keys
      invariant sweeps <= if changed then last else last + 1
      invariant BetweenSweeps(tokens, order, sweeps, last, resolved, changed)
      decreases last + 1 - sweeps
    {
      changed := false;
      var entries := resolved;
      NoTurnYet(entries, order);
      var i := 0;
      while i < |order|
        invariant 0 <= i <= |order|
        invariant (resolved, changed) == Turns(entries, order, i)
        invariant NoneDanglingBefore(entries, order, i)
      {
        var key := order[i];
        var val := entries[key];
        TurnTaken(entries, order, i, resolved, changed);
        if val.Ref? {
          if val.path !in resolved {
            MetDangling(tokens, order, sweeps, last, entries, i);
            return Unresolved(key, val.path), sweeps;
          }
          var target := resolved[val.path];
          if target != val {
            resolved := resolved[key := target];
            changed := true;
          }
        }
        NextNotDangling(entries, order, i);
        i := i + 1;
      }
      SweepCompleted(tokens, order, sweeps, last, entries, resolved, changed);
      sweeps := sweeps + 1;
    }
    Finished(tokens, order, sweeps, last, resolved);
    var cyclic := RefKeys(resolved, order);
    if |cyclic| > 0 {
      out := Circular(cyclic);
    } else {
      out := Resolved(resolved);
    }
  }
}
