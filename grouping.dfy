/** The find-or-create tables every aggregator of the engine builds: a
    vector of (key, value) entries scanned linearly for the key, bumped in
    place when the key is there and appended to when it is not. A
    `pair<string, int>`, a `pair<int, int>` and a `WordFrequency` are all an
    `Entry` here. */
module Grouping {

  datatype Entry<K> = Entry(key: K, value: int)

  /** The keys of a table, in table order. */
  function Keys<K>(t: seq<Entry<K>>): (r: seq<K>)
    ensures |r| == |t| && forall i :: 0 <= i < |t| ==> r[i] == t[i].key
  {
    seq(|t|, i requires 0 <= i < |t| => t[i].key)
  }

  predicate Distinct<K(==)>(xs: seq<K>) {
    forall i, j :: 0 <= i < j < |xs| ==> xs[i] != xs[j]
  }

  /** The linear scan: the index of the first entry with key k, or |t|. */
  function Find<K(==)>(t: seq<Entry<K>>, k: K): (i: nat)
    ensures i <= |t|
    ensures i < |t| ==> t[i].key == k
    ensures forall q :: 0 <= q < i ==> t[q].key != k
  {
    if t == [] then 0
    else if t[0].key == k then 0
    else 1 + Find(t[1..], k)
  }

  /** The scan falls off the end exactly when the key is absent. */
  lemma {:induction false} FindIn<K>(t: seq<Entry<K>>, k: K)
    ensures Find(t, k) < |t| <==> k in Keys(t)
  {
    if k in Keys(t) {
      var q :| 0 <= q < |t| && Keys(t)[q] == k;
      assert t[q].key == k;
    }
  }

  /** What the table holds for k: its value, or nothing (0) when absent. */
  function ValueOf<K(==)>(t: seq<Entry<K>>, k: K): int {
    var i := Find(t, k);
    if i < |t| then t[i].value else 0
  }

  /** One find-or-create step: the entry for k grows by v, or a new entry
      (k, v) goes at the end. */
  function Add<K(==)>(t: seq<Entry<K>>, k: K, v: int): seq<Entry<K>> {
    var i := Find(t, k);
    if i < |t| then t[i := Entry(k, t[i].value + v)] else t + [Entry(k, v)]
  }

  /** xs with x at the end unless it is already there. */
  function AppendAbsent<K(==)>(xs: seq<K>, x: K): (r: seq<K>)
    ensures x in r && xs <= r && |r| <= |xs| + 1
    ensures Distinct(xs) ==> Distinct(r)
  {
    if x in xs then xs else xs + [x]
  }

  /** A find-or-create step changes only the entry of k, leaves the keys
      distinct, adds v to what k had, and appends k (with value v) exactly
      when k was new. */
  lemma {:induction false} AddSpec<K>(t: seq<Entry<K>>, k: K, v: int)
    ensures Keys(Add(t, k, v)) == AppendAbsent(Keys(t), k)
    ensures forall i :: 0 <= i < |t| && t[i].key != k ==> Add(t, k, v)[i] == t[i]
    ensures k !in Keys(t) ==> Add(t, k, v)[|t|] == Entry(k, v)
    ensures ValueOf(Add(t, k, v), k) == ValueOf(t, k) + v
    ensures forall k' :: k' != k ==> ValueOf(Add(t, k, v), k') == ValueOf(t, k')
  {
    if k in Keys(t) {
      AddFound(t, k, v);
    } else {
      AddNew(t, k, v);
    }
  }

  lemma {:induction false} AddFound<K>(t: seq<Entry<K>>, k: K, v: int)
    requires k in Keys(t)
    ensures Keys(Add(t, k, v)) == Keys(t)
    ensures forall i :: 0 <= i < |t| && t[i].key != k ==> Add(t, k, v)[i] == t[i]
    ensures ValueOf(Add(t, k, v), k) == ValueOf(t, k) + v
    ensures forall k' :: k' != k ==> ValueOf(Add(t, k, v), k') == ValueOf(t, k')
  {
    var i := Find(t, k);
    var r := Add(t, k, v);
    AddShape(t, k, v);
    KeysSame(t, r);
    FindKeys(t, r, k);
    forall k' | k' != k ensures ValueOf(r, k') == ValueOf(t, k') {
      FindOther(t, r, i, k');
    }
  }

  /** When k is present, a find-or-create step rewrites its entry alone. */
  lemma {:induction false} AddShape<K>(t: seq<Entry<K>>, k: K, v: int)
    requires k in Keys(t)
    ensures |Add(t, k, v)| == |t|
    ensures Add(t, k, v)[Find(t, k)] == Entry(k, t[Find(t, k)].value + v)
    ensures forall q :: 0 <= q < |t| && q != Find(t, k) ==> Add(t, k, v)[q] == t[q]
  {
  }

  /** Changing only the entry at i, keeping its key, does not change what
      any other key holds. */
  lemma {:induction false} FindOther<K>(t: seq<Entry<K>>, r: seq<Entry<K>>, i: int, k': K)
    requires 0 <= i < |t| == |r| && t[i].key != k'
    requires forall q :: 0 <= q < |t| ==> t[q].key == r[q].key
    requires forall q :: 0 <= q < |t| && q != i ==> r[q] == t[q]
    ensures ValueOf(r, k') == ValueOf(t, k')
  {
    KeysSame(t, r);
    FindKeys(t, r, k');
  }

  lemma {:induction false} AddNew<K>(t: seq<Entry<K>>, k: K, v: int)
    requires k !in Keys(t)
    ensures Keys(Add(t, k, v)) == Keys(t) + [k]
    ensures Add(t, k, v) == t + [Entry(k, v)]
    ensures ValueOf(Add(t, k, v), k) == ValueOf(t, k) + v
    ensures forall k' :: k' != k ==> ValueOf(Add(t, k, v), k') == ValueOf(t, k')
  {
    var r := t + [Entry(k, v)];
    assert Keys(r) == Keys(t) + [k];
    FindAppend(t, Entry(k, v), k);
    forall k' | k' != k ensures ValueOf(r, k') == ValueOf(t, k') {
      FindAppend(t, Entry(k, v), k');
    }
  }

  /** Two tables whose entries carry the same keys have the same keys. */
  lemma {:induction false} KeysSame<K>(t: seq<Entry<K>>, r: seq<Entry<K>>)
    requires |t| == |r| && forall q :: 0 <= q < |t| ==> t[q].key == r[q].key
    ensures Keys(t) == Keys(r)
  {
    assert |Keys(t)| == |Keys(r)|;
    assert forall q :: 0 <= q < |t| ==> Keys(t)[q] == Keys(r)[q];
  }

  /** Find only looks at keys. */
  lemma {:induction false} FindKeys<K>(t: seq<Entry<K>>, r: seq<Entry<K>>, k: K)
    requires Keys(t) == Keys(r)
    ensures Find(t, k) == Find(r, k)
  {
    assert |t| == |Keys(t)| == |r|;
    assert forall q :: 0 <= q < |t| ==> t[q].key == Keys(t)[q] == r[q].key;
  }

  /** Appending an entry leaves the scan for an existing key unchanged. */
  lemma {:induction false} FindAppend<K>(t: seq<Entry<K>>, e: Entry<K>, k: K)
    ensures k in Keys(t) ==> Find(t + [e], k) == Find(t, k)
    ensures k !in Keys(t) && e.key == k ==> Find(t + [e], k) == |t|
    ensures k !in Keys(t) && e.key != k ==> Find(t + [e], k) == |t| + 1
  {
    var r := t + [e];
    assert forall q :: 0 <= q < |t| ==> r[q] == t[q] && r[q].key == Keys(t)[q];
    if k !in Keys(t) {
      assert forall q :: 0 <= q < |t| ==> r[q].key != k;
      assert r[|t|] == e;
    }
  }

  /** Folding find-or-create steps over a stream of (key, weight) pairs,
      starting from table t. */
  function Fold<K(==)>(t: seq<Entry<K>>, ps: seq<(K, int)>): seq<Entry<K>> {
    if ps == [] then t
    else Add(Fold(t, ps[..|ps| - 1]), ps[|ps| - 1].0, ps[|ps| - 1].1)
  }

  /** The table an aggregator builds from an empty vector. */
  function Totals<K(==)>(ps: seq<(K, int)>): seq<Entry<K>> {
    Fold([], ps)
  }

  /** Each key with the same weight w: what one movie feeds in, for
      instance each of its countries with its revenue. */
  function Weighted<K>(ks: seq<K>, w: int): (r: seq<(K, int)>)
    ensures |r| == |ks| && forall i :: 0 <= i < |ks| ==> r[i] == (ks[i], w)
  {
    if ks == [] then [] else Weighted(ks[..|ks| - 1], w) + [(ks[|ks| - 1], w)]
  }

  /** Each key with weight one: what the counters feed in. */
  function Ones<K>(ks: seq<K>): (r: seq<(K, int)>)
    ensures |r| == |ks| && forall i :: 0 <= i < |ks| ==> r[i] == (ks[i], 1)
  {
    Weighted(ks, 1)
  }

  /** The keys of a stream of steps, in order. */
  function Firsts<K, V>(ps: seq<(K, V)>): (r: seq<K>)
    ensures |r| == |ps| && forall i :: 0 <= i < |ps| ==> r[i] == ps[i].0
  {
    if ps == [] then [] else Firsts(ps[..|ps| - 1]) + [ps[|ps| - 1].0]
  }

  /** The sum of the weights given to k. */
  function SumFor<K(==)>(ps: seq<(K, int)>, k: K): int {
    if ps == [] then 0
    else SumFor(ps[..|ps| - 1], k) + (if ps[|ps| - 1].0 == k then ps[|ps| - 1].1 else 0)
  }

  /** The sum of all weights. */
  function SumWeights<K>(ps: seq<(K, int)>): int {
    if ps == [] then 0 else SumWeights(ps[..|ps| - 1]) + ps[|ps| - 1].1
  }

  /** The sum of all values of a table. */
  function SumValues<K>(t: seq<Entry<K>>): int {
    if t == [] then 0 else SumValues(t[..|t| - 1]) + t[|t| - 1].value
  }

  /** Appending the elements of ys not yet present, one at a time, in
      order. */
  function Absorb<K(==)>(xs: seq<K>, ys: seq<K>): seq<K> {
    if ys == [] then xs else AppendAbsent(Absorb(xs, ys[..|ys| - 1]), ys[|ys| - 1])
  }

  /** The distinct elements of ys in first-seen order. */
  function Dedup<K(==)>(ys: seq<K>): seq<K> {
    Absorb([], ys)
  }

  /** ys is xs followed only by elements that xs does not hold. */
  predicate AppendsNew<K(==)>(xs: seq<K>, ys: seq<K>) {
    xs <= ys && forall i :: |xs| <= i < |ys| ==> ys[i] !in xs
  }

  /** Growing by new elements twice is growing by new elements. */
  lemma {:induction false} AppendsNewTrans<K>(a: seq<K>, b: seq<K>, c: seq<K>)
    requires AppendsNew(a, b) && AppendsNew(b, c)
    ensures AppendsNew(a, c)
  {
  }

  /** Absorbing keeps what was there as a prefix, appends only elements
      not there before, adds exactly the elements of ys, and keeps a
      distinct list distinct. */
  lemma {:induction false} AbsorbSpec<K>(xs: seq<K>, ys: seq<K>)
    ensures AppendsNew(xs, Absorb(xs, ys))
    ensures forall y :: y in Absorb(xs, ys) <==> y in xs || y in ys
    ensures Distinct(xs) ==> Distinct(Absorb(xs, ys))
  {
    if ys != [] {
      var init := ys[..|ys| - 1];
      AbsorbSpec(xs, init);
      assert forall y :: y in ys <==> y in init || y == ys[|ys| - 1];
      var a := Absorb(xs, init);
      if ys[|ys| - 1] !in a {
        assert forall x :: x in xs ==> x in a by {
          forall x | x in xs ensures x in a {
            var i :| 0 <= i < |xs| && xs[i] == x;
            assert a[i] == x;
          }
        }
      }
    }
  }

  /** The keys of the folded table are the keys of t followed by the new
      keys of the stream in first-seen order; in particular they stay
      distinct. */
  lemma {:induction false} FoldKeys<K>(t: seq<Entry<K>>, ps: seq<(K, int)>)
    ensures Keys(Fold(t, ps)) == Absorb(Keys(t), Firsts(ps))
  {
    if ps != [] {
      var init := ps[..|ps| - 1];
      FoldKeys(t, init);
      AddSpec(Fold(t, init), ps[|ps| - 1].0, ps[|ps| - 1].1);
      assert Firsts(ps)[..|ps| - 1] == Firsts(init);
    }
  }

  /** Every key's value in the folded table is what it had plus the
      weights given to it in the stream. */
  lemma {:induction false} FoldValue<K>(t: seq<Entry<K>>, ps: seq<(K, int)>, k: K)
    ensures ValueOf(Fold(t, ps), k) == ValueOf(t, k) + SumFor(ps, k)
  {
    if ps != [] {
      FoldValue(t, ps[..|ps| - 1], k);
      AddSpec(Fold(t, ps[..|ps| - 1]), ps[|ps| - 1].0, ps[|ps| - 1].1);
    }
  }

  /** Folding two streams one after the other is folding their
      concatenation. */
  lemma {:induction false} FoldAppend<K>(t: seq<Entry<K>>, ps: seq<(K, int)>, qs: seq<(K, int)>)
    ensures Fold(t, ps + qs) == Fold(Fold(t, ps), qs)
  {
    if qs == [] {
      assert ps + qs == ps;
    } else {
      FoldAppend(t, ps, qs[..|qs| - 1]);
      assert (ps + qs)[..|ps + qs| - 1] == ps + qs[..|qs| - 1];
    }
  }

  /** The table built from an empty vector: its keys are the distinct keys
      of the stream in first-seen order, and each holds the total weight it
      was given. */
  lemma {:induction false} TotalsSpec<K>(ps: seq<(K, int)>)
    ensures Keys(Totals(ps)) == Dedup(Firsts(ps))
    ensures Distinct(Keys(Totals(ps)))
    ensures forall k :: k in Keys(Totals(ps)) <==> k in Firsts(ps)
    ensures forall k :: ValueOf(Totals(ps), k) == SumFor(ps, k)
  {
    FoldKeys([], ps);
    var empty: seq<Entry<K>> := [];
    assert Keys(empty) == [];
    AbsorbSpec([], Firsts(ps));
    forall k ensures ValueOf(Totals(ps), k) == SumFor(ps, k) {
      FoldValue([], ps, k);
    }
  }

  /** Find-or-create loses no weight: the values of a folded table add up
      to its old values plus every weight of the stream. */
  lemma {:induction false} FoldSum<K>(t: seq<Entry<K>>, ps: seq<(K, int)>)
    ensures SumValues(Fold(t, ps)) == SumValues(t) + SumWeights(ps)
  {
    if ps != [] {
      var init := ps[..|ps| - 1];
      FoldSum(t, init);
      AddSum(Fold(t, init), ps[|ps| - 1].0, ps[|ps| - 1].1);
    }
  }

  lemma {:induction false} AddSum<K>(t: seq<Entry<K>>, k: K, v: int)
    ensures SumValues(Add(t, k, v)) == SumValues(t) + v
  {
    if k in Keys(t) {
      AddShape(t, k, v);
      SumChange(t, Add(t, k, v), Find(t, k));
    } else {
      AddNew(t, k, v);
      assert (t + [Entry(k, v)])[..|t|] == t;
    }
  }

  /** Changing one entry changes the sum by the difference. */
  lemma {:induction false} SumChange<K>(t: seq<Entry<K>>, r: seq<Entry<K>>, i: int)
    requires 0 <= i < |t| == |r|
    requires forall q :: 0 <= q < |t| && q != i ==> r[q] == t[q]
    ensures SumValues(r) == SumValues(t) - t[i].value + r[i].value
  {
    var n := |t|;
    if i == n - 1 {
      assert r[..n - 1] == t[..n - 1];
    } else {
      SumChange(t[..n - 1], r[..n - 1], i);
      assert r[n - 1] == t[n - 1];
    }
  }

  /** A counter built from keys with weight one counts each key's
      occurrences, and its counts add up to the number of keys. */
  lemma {:induction false} CountSpec<K>(ks: seq<K>, k: K)
    ensures ValueOf(Totals(Ones(ks)), k) == multiset(ks)[k]
    ensures SumValues(Totals(Ones(ks))) == |ks|
  {
    TotalsSpec(Ones(ks));
    OnesSum(ks, k);
    FoldSum([], Ones(ks));
  }

  lemma {:induction false} OnesSum<K>(ks: seq<K>, k: K)
    ensures SumFor(Ones(ks), k) == multiset(ks)[k]
    ensures SumWeights(Ones(ks)) == |ks|
  {
    if ks != [] {
      var init := ks[..|ks| - 1];
      OnesSum(init, k);
      assert Ones(ks)[..|ks| - 1] == Ones(init);
      assert ks == init + [ks[|ks| - 1]];
    }
  }

  lemma {:induction false} WeightedAppend<K>(xs: seq<K>, ys: seq<K>, w: int)
    ensures Weighted(xs + ys, w) == Weighted(xs, w) + Weighted(ys, w)
  {
    assert |Weighted(xs + ys, w)| == |Weighted(xs, w) + Weighted(ys, w)|;
    forall i | 0 <= i < |xs| + |ys| ensures Weighted(xs + ys, w)[i] == (Weighted(xs, w) + Weighted(ys, w))[i] {
      if i < |xs| {
        assert (xs + ys)[i] == xs[i];
      } else {
        assert (xs + ys)[i] == ys[i - |xs|];
      }
    }
  }

  /** A nested table: a key (a language, a year) with its own table of
      word frequencies. */
  datatype Group<K> = Group(key: K, words: seq<Entry<string>>)

  /** The key column of a group table, each key as a (key, 1) entry. */
  function Heads<K>(gs: seq<Group<K>>): (r: seq<Entry<K>>)
    ensures |r| == |gs| && forall i :: 0 <= i < |gs| ==> r[i] == Entry(gs[i].key, 1)
  {
    seq(|gs|, i requires 0 <= i < |gs| => Entry(gs[i].key, 1))
  }

  /** One nested find-or-create step: the words ws are counted into the
      table of key k, which is created (empty if ws is) when k is new. */
  function Enter<K(==)>(gs: seq<Group<K>>, k: K, ws: seq<string>): seq<Group<K>> {
    var i := Find(Heads(gs), k);
    if i < |gs| then gs[i := Group(k, Fold(gs[i].words, Ones(ws)))]
    else gs + [Group(k, Totals(Ones(ws)))]
  }

  /** The nested table built from an empty vector by a stream of
      (key, words) steps. */
  function Groups<K(==)>(st: seq<(K, seq<string>)>): seq<Group<K>> {
    if st == [] then [] else Enter(Groups(st[..|st| - 1]), st[|st| - 1].0, st[|st| - 1].1)
  }

  /** All the words the stream gives to key k, in order. */
  function WordsFor<K(==)>(st: seq<(K, seq<string>)>, k: K): seq<string> {
    if st == [] then []
    else WordsFor(st[..|st| - 1], k) + (if st[|st| - 1].0 == k then st[|st| - 1].1 else [])
  }

  lemma {:induction false} WordsForAbsent<K>(st: seq<(K, seq<string>)>, k: K)
    requires k !in Firsts(st)
    ensures WordsFor(st, k) == []
  {
    if st != [] {
      assert Firsts(st[..|st| - 1]) == Firsts(st)[..|st| - 1];
      WordsForAbsent(st[..|st| - 1], k);
    }
  }

  /** The nested table holds one group per distinct key, in first-seen
      order, and each group's table counts exactly the words the stream gave
      to that key. */
  lemma {:induction false} GroupsSpec<K>(st: seq<(K, seq<string>)>)
    ensures Keys(Heads(Groups(st))) == Dedup(Firsts(st))
    ensures forall i :: 0 <= i < |Groups(st)| ==>
      Groups(st)[i].words == Totals(Ones(WordsFor(st, Groups(st)[i].key)))
  {
    if st != [] {
      var init := st[..|st| - 1];
      var k, ws := st[|st| - 1].0, st[|st| - 1].1;
      GroupsSpec(init);
      assert st == init + [(k, ws)];
      EnterSpec(Groups(init), init, k, ws);
    }
  }

  /** The induction step of GroupsSpec. */
  lemma {:induction false} EnterSpec<K>(gs: seq<Group<K>>, init: seq<(K, seq<string>)>, k: K, ws: seq<string>)
    requires Keys(Heads(gs)) == Dedup(Firsts(init))
    requires forall i :: 0 <= i < |gs| ==> gs[i].words == Totals(Ones(WordsFor(init, gs[i].key)))
    ensures Keys(Heads(Enter(gs, k, ws))) == Dedup(Firsts(init + [(k, ws)]))
    ensures forall i :: 0 <= i < |Enter(gs, k, ws)| ==>
      Enter(gs, k, ws)[i].words == Totals(Ones(WordsFor(init + [(k, ws)], Enter(gs, k, ws)[i].key)))
  {
    var st := init + [(k, ws)];
    assert st[..|st| - 1] == init;
    assert Firsts(st) == Firsts(init) + [k];
    AbsorbSpec([], Firsts(init));
    if k in Keys(Heads(gs)) {
      EnterFound(gs, init, k, ws);
    } else {
      EnterShapeNew(gs, k, ws);
      AppendKeys(gs, Group(k, Totals(Ones(ws))));
      AppendGroup(gs, init, k, ws);
    }
  }

  lemma {:induction false} EnterFound<K>(gs: seq<Group<K>>, init: seq<(K, seq<string>)>, k: K, ws: seq<string>)
    requires Distinct(Keys(Heads(gs))) && k in Keys(Heads(gs))
    requires forall i :: 0 <= i < |gs| ==> gs[i].words == Totals(Ones(WordsFor(init, gs[i].key)))
    ensures Keys(Heads(Enter(gs, k, ws))) == Keys(Heads(gs))
    ensures forall i :: 0 <= i < |Enter(gs, k, ws)| ==>
      Enter(gs, k, ws)[i].words == Totals(Ones(WordsFor(init + [(k, ws)], Enter(gs, k, ws)[i].key)))
  {
    var r := Enter(gs, k, ws);
    var i := Find(Heads(gs), k);
    EnterShape(gs, k, ws);
    KeysSame(Heads(gs), Heads(r));
    forall j | 0 <= j < |r| ensures r[j].words == Totals(Ones(WordsFor(init + [(k, ws)], r[j].key))) {
      if j != i {
        assert Keys(Heads(gs))[j] != Keys(Heads(gs))[i];
      }
      GroupAfter(gs[j], init, k, ws, r[j].words);
    }
  }

  lemma {:induction false} AppendKeys<K>(gs: seq<Group<K>>, g: Group<K>)
    ensures Keys(Heads(gs + [g])) == Keys(Heads(gs)) + [g.key]
  {
    KeysSame(Heads(gs + [g]), Heads(gs) + [Entry(g.key, 1)]);
    assert Keys(Heads(gs) + [Entry(g.key, 1)]) == Keys(Heads(gs)) + [g.key];
  }

  /** A new group, appended for a key the stream has not used yet, counts
      just the step's words. */
  lemma {:induction false} AppendGroup<K>(gs: seq<Group<K>>, init: seq<(K, seq<string>)>, k: K, ws: seq<string>)
    requires k !in Keys(Heads(gs)) && Keys(Heads(gs)) == Dedup(Firsts(init))
    requires forall i :: 0 <= i < |gs| ==> gs[i].words == Totals(Ones(WordsFor(init, gs[i].key)))
    ensures forall i :: 0 <= i <= |gs| ==>
      (gs + [Group(k, Totals(Ones(ws)))])[i].words ==
      Totals(Ones(WordsFor(init + [(k, ws)], (gs + [Group(k, Totals(Ones(ws)))])[i].key)))
  {
    var r := gs + [Group(k, Totals(Ones(ws)))];
    AbsorbSpec([], Firsts(init));
    forall j | 0 <= j < |r| ensures r[j].words == Totals(Ones(WordsFor(init + [(k, ws)], r[j].key))) {
      if j == |gs| {
        WordsForAbsent(init, k);
        GroupAfter(Group(k, []), init, k, ws, r[j].words);
      } else {
        assert Keys(Heads(gs))[j] != k;
        GroupAfter(gs[j], init, k, ws, r[j].words);
      }
    }
  }

  /** One group after a step of the stream: its table gains the step's
      words exactly when the step is for its key. */
  lemma {:induction false} GroupAfter<K>(g: Group<K>, init: seq<(K, seq<string>)>, k: K, ws: seq<string>, after: seq<Entry<string>>)
    requires g.words == Totals(Ones(WordsFor(init, g.key)))
    requires g.key == k ==> after == Fold(g.words, Ones(ws))
    requires g.key != k ==> after == g.words
    ensures after == Totals(Ones(WordsFor(init + [(k, ws)], g.key)))
  {
    WordsForStep(init, k, ws, g.key);
    if g.key == k {
      TotalsStep(WordsFor(init, k), ws);
    } else {
      assert WordsFor(init, g.key) + [] == WordsFor(init, g.key);
    }
  }

  /** When k has a group, an Enter step rewrites that group alone. */
  lemma {:induction false} EnterShape<K>(gs: seq<Group<K>>, k: K, ws: seq<string>)
    requires k in Keys(Heads(gs))
    ensures |Enter(gs, k, ws)| == |gs|
    ensures Enter(gs, k, ws)[Find(Heads(gs), k)] == Group(k, Fold(gs[Find(Heads(gs), k)].words, Ones(ws)))
    ensures forall q :: 0 <= q < |gs| && q != Find(Heads(gs), k) ==> Enter(gs, k, ws)[q] == gs[q]
  {
  }

  /** When k has no group, an Enter step appends one. */
  lemma {:induction false} EnterShapeNew<K>(gs: seq<Group<K>>, k: K, ws: seq<string>)
    requires k !in Keys(Heads(gs))
    ensures Enter(gs, k, ws) == gs + [Group(k, Totals(Ones(ws)))]
  {
    FindIn(Heads(gs), k);
  }

  lemma {:induction false} WordsForStep<K>(init: seq<(K, seq<string>)>, k: K, ws: seq<string>, k2: K)
    ensures WordsFor(init + [(k, ws)], k2) == WordsFor(init, k2) + (if k == k2 then ws else [])
  {
    assert (init + [(k, ws)])[..|init|] == init;
  }

  /** The keys counted are the list counted. */
  lemma {:induction false} FirstsOnes<K>(ks: seq<K>)
    ensures Firsts(Ones(ks)) == ks
  {
    assert |Firsts(Ones(ks))| == |ks|;
  }

  /** Counting xs and then ys into a table is counting xs + ys. */
  lemma {:induction false} TotalsStep<K>(xs: seq<K>, ys: seq<K>)
    ensures Totals(Ones(xs + ys)) == Fold(Totals(Ones(xs)), Ones(ys))
  {
    WeightedAppend(xs, ys, 1);
    FoldAppend([], Ones(xs), Ones(ys));
  }

  /** Folding one more key of a list with weight w is one more
      find-or-create step. */
  lemma {:induction false} FoldStep<K>(t: seq<Entry<K>>, ks: seq<K>, j: int, w: int)
    requires 0 <= j < |ks|
    ensures Fold(t, Weighted(ks[..j + 1], w)) == Add(Fold(t, Weighted(ks[..j], w)), ks[j], w)
  {
    assert ks[..j + 1] == ks[..j] + [ks[j]];
    FoldSnoc(t, ks[..j], ks[j], w);
  }

  lemma {:induction false} FoldSnoc<K>(t: seq<Entry<K>>, ks: seq<K>, k: K, w: int)
    ensures Fold(t, Weighted(ks + [k], w)) == Add(Fold(t, Weighted(ks, w)), k, w)
  {
    assert (ks + [k])[..|ks|] == ks;
  }

  /** A stream built movie by movie: the table after one more movie is the
      old table with that movie's part folded in. */
  lemma {:induction false} TotalsAppend<K>(ps: seq<(K, int)>, qs: seq<(K, int)>)
    ensures Totals(ps + qs) == Fold(Totals(ps), qs)
  {
    FoldAppend([], ps, qs);
  }

  /** The index of the first entry with the largest value: where a stable
      sort by descending value puts its first element. */
  function Leader<K>(t: seq<Entry<K>>): (p: nat)
    requires t != []
    ensures p < |t|
    ensures forall q :: 0 <= q < |t| ==> t[q].value <= t[p].value
    ensures forall q :: 0 <= q < p ==> t[q].value < t[p].value
  {
    if |t| == 1 then 0
    else
      var p := Leader(t[..|t| - 1]);
      if t[|t| - 1].value > t[p].value then |t| - 1 else p
  }

  /** Only one index is the first with the largest value. */
  lemma {:induction false} LeaderUnique<K>(t: seq<Entry<K>>, p: int)
    requires 0 <= p < |t|
    requires forall q :: 0 <= q < |t| ==> t[q].value <= t[p].value
    requires forall q :: 0 <= q < p ==> t[q].value < t[p].value
    ensures p == Leader(t)
  {
    var l := Leader(t);
    assert t[l].value <= t[p].value && t[p].value <= t[l].value;
  }

  /** A linear scan for x, stopping at the first match. */
  method Contains<K(==)>(xs: seq<K>, x: K) returns (found: bool)
    ensures found <==> x in xs
  {
    found := false;
    var i := 0;
    while i < |xs|
      invariant 0 <= i <= |xs| && x !in xs[..i]
    {
      if xs[i] == x {
        return true;
      }
      assert xs[..i + 1] == xs[..i] + [xs[i]];
      i := i + 1;
    }
    assert xs[..i] == xs;
  }

  /** The inner find-or-create loop of every aggregator: scan for k, add v
      to its entry (`cp.second += v`, `wf.frequency++`), or push (k, v) when
      the scan falls off the end. */
  method Accumulate<K(==)>(t: seq<Entry<K>>, k: K, v: int) returns (r: seq<Entry<K>>)
    ensures r == Add(t, k, v)
  {
    var i := 0;
    while i < |t|
      invariant 0 <= i <= |t| && forall q :: 0 <= q < i ==> t[q].key != k
    {
      if t[i].key == k {
        assert Find(t, k) == i;
        return t[i := Entry(k, t[i].value + v)];
      }
      i := i + 1;
    }
    r := t + [Entry(k, v)];
  }
}
