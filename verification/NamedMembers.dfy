module NamedMembers {

  // Members of a structure that are given by name, in any order and each at most once.

  import opened Wrappers

  /** The number of the name in its table, and what is given for it. */
  datatype Entry<V> = Entry(kind: nat, value: V)

  /** All members by number; none if a name is given twice. */
  function AddAll<V>(m: map<nat, V>, l: seq<Entry<V>>): Option<map<nat, V>>
    decreases l
  {
    if l == [] then Some(m)
    else if l[0].kind in m then None
    else AddAll(m[l[0].kind := l[0].value], l[1..])
  }

  ghost predicate Different<V>(l: seq<Entry<V>>)
  {
    forall i, j :: 0 <= i < j < |l| ==> l[i].kind != l[j].kind
  }

  ghost predicate AllNew<V>(m: map<nat, V>, l: seq<Entry<V>>) { forall e :: e in l ==> e.kind !in m }

  lemma NewFirst<V>(m: map<nat, V>, l: seq<Entry<V>>)
    requires l != []
    ensures Different(l) && AllNew(m, l)
       <==> l[0].kind !in m && Different(l[1..]) && AllNew(m[l[0].kind := l[0].value], l[1..])
  {
    var rest, next := l[1..], m[l[0].kind := l[0].value];
    assert forall e :: e in l <==> e == l[0] || e in rest;
    if Different(l) && AllNew(m, l) {
      forall e | e in rest ensures e.kind !in next {
        var j :| 1 <= j < |l| && l[j] == e;
        assert l[0].kind != l[j].kind;
      }
    }
    if l[0].kind !in m && Different(rest) && AllNew(next, rest) {
      forall e | e in rest ensures e.kind != l[0].kind && e.kind !in m { assert e.kind !in next; }
      forall i, j | 0 <= i < j < |l| ensures l[i].kind != l[j].kind {
        assert l[j] == rest[j - 1] && l[j] in rest;
        if i > 0 { assert l[i] == rest[i - 1]; }
      }
    }
  }

  /** The members are those given, if no name is given twice. */
  lemma {:induction false} Added<V>(m: map<nat, V>, l: seq<Entry<V>>)
    ensures AddAll(m, l).Some? <==> Different(l) && AllNew(m, l)
    ensures AddAll(m, l).Some? ==>
              var all := AddAll(m, l).value;
              && (forall k :: k in all <==> k in m || exists e :: e in l && e.kind == k)
              && (forall k :: k in m ==> all[k] == m[k])
              && (forall e :: e in l ==> all[e.kind] == e.value)
    decreases l
  {
    if l != [] {
      NewFirst(m, l);
      assert forall e :: e in l <==> e == l[0] || e in l[1..];
      if l[0].kind !in m { Added(m[l[0].kind := l[0].value], l[1..]); }
    }
  }

  /** The names with the numbers up to n are all given, and no one twice. */
  ghost predicate Complete<V>(l: seq<Entry<V>>, n: nat) { Different(l) && forall k: nat :: k < n ==> Given(l, k) }

  ghost predicate Given<V>(l: seq<Entry<V>>, k: nat) { exists e :: e in l && e.kind == k }

  lemma CompleteIsAdded<V>(l: seq<Entry<V>>, n: nat)
    ensures var all := AddAll(map[], l);
            && (Complete(l, n) <==> all.Some? && forall k: nat :: k < n ==> k in all.value)
            && (all.Some? ==> forall k :: k in all.value ==> Entry(k, all.value[k]) in l)
  {
    hide Different;
    Added(map[], l);
    assert AllNew(map[], l);
    if AddAll(map[], l).Some? {
      var all := AddAll(map[], l).value;
      assert forall k: nat :: k in all <==> Given(l, k);
      forall k | k in all ensures Entry(k, all[k]) in l {
        var e :| e in l && e.kind == k;
        assert e == Entry(k, all[k]);
      }
    }
  }
}
