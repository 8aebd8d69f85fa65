// std::map and std::set keyed by byte strings: sequences of entries with strictly
// ascending keys, under a comparison given by the container.

module Ordered {
  import opened Basics

  type Key = seq<byte>
  type Less = (Key, Key) -> bool

  datatype Entry<V> = Entry(key: Key, value: V)

  // Byte strings in the order of std::string and std::vector<uint8_t>.
  predicate LexLess(a: Key, b: Key) {
    if b == [] then false
    else if a == [] then true
    else a[0] < b[0] || (a[0] == b[0] && LexLess(a[1..], b[1..]))
  }

  // The byte at the first difference decides; a proper prefix comes first.
  lemma {:induction false} LexLessIff(a: Key, b: Key)
    ensures LexLess(a, b) <==>
            exists i :: 0 <= i <= |a| && i < |b| && a[..i] == b[..i] && (i == |a| || a[i] < b[i])
  {
    if LexLess(a, b) {
      if a == [] || a[0] < b[0] {
        assert a[..0] == b[..0];
      } else {
        LexLessIff(a[1..], b[1..]);
        var i :| 0 <= i <= |a[1..]| && i < |b[1..]| && a[1..][..i] == b[1..][..i] &&
                 (i == |a[1..]| || a[1..][i] < b[1..][i]);
        assert a[..i + 1] == [a[0]] + a[1..][..i] && b[..i + 1] == [b[0]] + b[1..][..i];
      }
    }
    if i :| 0 <= i <= |a| && i < |b| && a[..i] == b[..i] && (i == |a| || a[i] < b[i]) {
      if i > 0 {
        assert a[0] == a[..i][0] && b[0] == b[..i][0];
        assert a[1..][..i - 1] == a[..i][1..] && b[1..][..i - 1] == b[..i][1..];
        LexLessIff(a[1..], b[1..]);
      }
    }
  }

  ghost predicate StrictTotal(less: Less) {
    (forall a :: !less(a, a)) &&
    (forall a, b, c :: less(a, b) && less(b, c) ==> less(a, c)) &&
    (forall a, b :: less(a, b) || a == b || less(b, a))
  }

  lemma {:induction false} LexIrreflexive(a: Key)
    ensures !LexLess(a, a)
  {
    if a != [] {
      LexIrreflexive(a[1..]);
    }
  }

  lemma {:induction false} LexTransitive(a: Key, b: Key, c: Key)
    requires LexLess(a, b) && LexLess(b, c)
    ensures LexLess(a, c)
  {
    if a != [] && a[0] == b[0] == c[0] {
      LexTransitive(a[1..], b[1..], c[1..]);
    }
  }

  lemma {:induction false} LexConnected(a: Key, b: Key)
    ensures LexLess(a, b) || a == b || LexLess(b, a)
  {
    if a != [] && b != [] && a[0] == b[0] {
      LexConnected(a[1..], b[1..]);
      assert a == [a[0]] + a[1..] && b == [b[0]] + b[1..];
    }
  }

  lemma LexStrictTotal()
    ensures StrictTotal(LexLess)
  {
    forall a ensures !LexLess(a, a) { LexIrreflexive(a); }
    forall a, b, c | LexLess(a, b) && LexLess(b, c) ensures LexLess(a, c) { LexTransitive(a, b, c); }
    forall a, b ensures LexLess(a, b) || a == b || LexLess(b, a) { LexConnected(a, b); }
  }

  ghost predicate Ascending<V>(less: Less, m: seq<Entry<V>>) {
    forall i, j | 0 <= i < j < |m| :: less(m[i].key, m[j].key)
  }

  predicate HasKey<V(==)>(m: seq<Entry<V>>, k: Key) {
    exists i | 0 <= i < |m| :: m[i].key == k
  }

  // std::map::emplace: nothing happens when the key is taken.
  function Emplace<V>(less: Less, m: seq<Entry<V>>, e: Entry<V>): seq<Entry<V>> {
    if m == [] then [e]
    else if less(e.key, m[0].key) then [e] + m
    else if less(m[0].key, e.key) then [m[0]] + Emplace(less, m[1..], e)
    else m
  }

  lemma KeyBehindFirst<V>(m: seq<Entry<V>>, k: Key)
    requires m != [] && m[0].key != k
    ensures HasKey(m, k) <==> HasKey(m[1..], k)
  {
    if HasKey(m, k) {
      var i :| 0 <= i < |m| && m[i].key == k;
      assert m[1..][i - 1].key == k;
    }
    if HasKey(m[1..], k) {
      var i :| 0 <= i < |m[1..]| && m[1..][i].key == k;
      assert m[i + 1].key == k;
    }
  }

  lemma {:induction false} EmplaceAbove<V>(less: Less, low: Key, m: seq<Entry<V>>, e: Entry<V>)
    requires less(low, e.key) && forall i | 0 <= i < |m| :: less(low, m[i].key)
    ensures forall i | 0 <= i < |Emplace(less, m, e)| :: less(low, Emplace(less, m, e)[i].key)
  {
    if m != [] {
      EmplaceAbove(less, low, m[1..], e);
    }
  }

  lemma {:induction false} EmplaceAscending<V>(less: Less, m: seq<Entry<V>>, e: Entry<V>)
    requires StrictTotal(less) && Ascending(less, m)
    ensures Ascending(less, Emplace(less, m, e))
  {
    if m != [] && less(m[0].key, e.key) {
      EmplaceAscending(less, m[1..], e);
      EmplaceAbove(less, m[0].key, m[1..], e);
    }
  }

  lemma {:induction false} EmplaceTaken<V>(less: Less, m: seq<Entry<V>>, i: nat, e: Entry<V>)
    requires StrictTotal(less) && Ascending(less, m) && i < |m| && m[i].key == e.key
    ensures Emplace(less, m, e) == m
  {
    if i > 0 {
      assert less(m[0].key, m[i].key);
      EmplaceTaken(less, m[1..], i - 1, e);
    }
  }

  lemma {:induction false} EmplaceNew<V>(less: Less, m: seq<Entry<V>>, e: Entry<V>)
    requires StrictTotal(less) && !HasKey(m, e.key)
    ensures multiset(Emplace(less, m, e)) == multiset(m) + multiset{e}
    ensures |Emplace(less, m, e)| == |m| + 1
  {
    if m != [] {
      assert m == [m[0]] + m[1..] && m[0].key != e.key;
      KeyBehindFirst(m, e.key);
      EmplaceNew(less, m[1..], e);
    }
  }

  lemma EmplaceContents<V>(less: Less, m: seq<Entry<V>>, e: Entry<V>)
    requires StrictTotal(less) && Ascending(less, m)
    ensures Ascending(less, Emplace(less, m, e))
    ensures HasKey(m, e.key) ==> Emplace(less, m, e) == m
    ensures !HasKey(m, e.key) ==>
              multiset(Emplace(less, m, e)) == multiset(m) + multiset{e} &&
              |Emplace(less, m, e)| == |m| + 1
  {
    EmplaceAscending(less, m, e);
    if HasKey(m, e.key) {
      var i :| 0 <= i < |m| && m[i].key == e.key;
      EmplaceTaken(less, m, i, e);
    } else {
      EmplaceNew(less, m, e);
    }
  }

  // std::map::find.
  function Lookup<V>(m: seq<Entry<V>>, k: Key): (r: Option<V>)
    ensures r == None <==> !HasKey(m, k)
    ensures r.Some? ==> Entry(k, r.value) in m
  {
    if m == [] then None
    else if m[0].key == k then Some(m[0].value)
    else
      KeyBehindFirst(m, k);
      Lookup(m[1..], k)
  }

  lemma {:induction false} LookupAt<V>(less: Less, m: seq<Entry<V>>, i: nat)
    requires StrictTotal(less) && Ascending(less, m) && i < |m|
    ensures Lookup(m, m[i].key) == Some(m[i].value)
  {
    if i > 0 {
      assert less(m[0].key, m[i].key);
      LookupAt(less, m[1..], i - 1);
    }
  }

  // Entries without the one with key k.
  function Erased<V>(m: seq<Entry<V>>, k: Key): seq<Entry<V>> {
    if m == [] then []
    else if m[0].key == k then m[1..]
    else [m[0]] + Erased(m[1..], k)
  }

  lemma AboveFirst<V>(less: Less, m: seq<Entry<V>>, e: Entry<V>)
    requires StrictTotal(less) && Ascending(less, m) && m != [] && e in m[1..]
    ensures less(m[0].key, e.key) && e.key != m[0].key
  {
    var i :| 0 <= i < |m[1..]| && m[1..][i] == e;
    assert m[i + 1] == e;
  }

  lemma {:induction false} ErasedHas<V>(less: Less, m: seq<Entry<V>>, k: Key, e: Entry<V>)
    requires StrictTotal(less) && Ascending(less, m)
    ensures e in Erased(m, k) <==> e in m && e.key != k
  {
    if m != [] {
      var tail := m[1..];
      assert e in m <==> e == m[0] || e in tail;
      if e in tail {
        AboveFirst(less, m, e);
      }
      ErasedHas(less, tail, k, e);
    }
  }

  lemma {:induction false} ErasedAscending<V>(less: Less, m: seq<Entry<V>>, k: Key)
    requires StrictTotal(less) && Ascending(less, m)
    ensures Ascending(less, Erased(m, k))
  {
    if m != [] && m[0].key != k {
      var r := Erased(m[1..], k);
      ErasedAscending(less, m[1..], k);
      forall j | 0 <= j < |r| ensures less(m[0].key, r[j].key) {
        ErasedHas(less, m[1..], k, r[j]);
        AboveFirst(less, m, r[j]);
      }
    }
  }

  lemma ErasedContents<V>(less: Less, m: seq<Entry<V>>, k: Key)
    requires StrictTotal(less) && Ascending(less, m)
    ensures Ascending(less, Erased(m, k))
    ensures forall e :: e in Erased(m, k) <==> e in m && e.key != k
  {
    ErasedAscending(less, m, k);
    forall e ensures e in Erased(m, k) <==> e in m && e.key != k {
      ErasedHas(less, m, k, e);
    }
  }

  // Emplacing behind all keys appends.
  lemma {:induction false} EmplaceLast<V>(less: Less, m: seq<Entry<V>>, e: Entry<V>)
    requires StrictTotal(less) && forall i | 0 <= i < |m| :: less(m[i].key, e.key)
    ensures Emplace(less, m, e) == m + [e]
  {
    if m == [] {
      assert [] + [e] == [e];
    } else {
      assert !less(e.key, m[0].key);
      EmplaceLast(less, m[1..], e);
      assert m == [m[0]] + m[1..];
    }
  }

  lemma TailMultiset<V>(a: seq<Entry<V>>)
    requires a != []
    ensures multiset(a[1..]) == multiset(a) - multiset{a[0]}
  {
    assert a == [a[0]] + a[1..];
  }

  lemma SameEnds<V>(a: seq<Entry<V>>, b: seq<Entry<V>>)
    requires multiset(a) == multiset(b)
    ensures |a| == |b| && (a != [] ==> a[0] in b && b[0] in a)
  {
    assert |multiset(a)| == |a| && |multiset(b)| == |b|;
    if a != [] {
      assert a[0] in multiset(a) && b[0] in multiset(b);
    }
  }

  lemma SameFirst<V>(less: Less, a: seq<Entry<V>>, b: seq<Entry<V>>)
    requires StrictTotal(less) && Ascending(less, a) && Ascending(less, b)
    requires a != [] && b != [] && a[0] in b && b[0] in a
    ensures a[0] == b[0]
  {
    var i :| 0 <= i < |b| && b[i] == a[0];
    var j :| 0 <= j < |a| && a[j] == b[0];
    assert !(less(b[0].key, a[0].key) && less(a[0].key, b[0].key));
  }

  // A container's content fixes the order in which it is traversed.
  lemma {:induction false} TraversalIsUnique<V>(less: Less, a: seq<Entry<V>>, b: seq<Entry<V>>)
    requires StrictTotal(less) && Ascending(less, a) && Ascending(less, b)
    requires multiset(a) == multiset(b)
    ensures a == b
  {
    SameEnds(a, b);
    if a != [] {
      SameFirst(less, a, b);
      TailMultiset(a);
      TailMultiset(b);
      TraversalIsUnique(less, a[1..], b[1..]);
      assert a == [a[0]] + a[1..] && b == [b[0]] + b[1..];
    }
  }
}
