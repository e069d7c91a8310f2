/** One global parameter and the scopes that set it: what each saved, and the order of the sets. */
module ScopeCell {

  type Id = nat

  /** One live scope's set of the parameter. */
  datatype Entry<V> = Entry(id: Id, v: V)

  /** The parameter's value, what every live setter saved, and the sets in order, oldest first. */
  datatype Cell<V> = Cell(now: V, saved: map<Id, V>, log: seq<Entry<V>>)

  /** The value after the first n sets. */
  function Expected<V>(init: V, log: seq<Entry<V>>, n: nat): V
    requires n <= |log|
  {
    if n == 0 then init else log[n - 1].v
  }

  /** The promise: the parameter has the value that the latest live scope to set it gave it. */
  predicate InForce<V(==)>(c: Cell<V>, init: V) {
    c.now == Expected(init, c.log, |c.log|)
  }

  /** The i-th setter saved what the ones before it left. */
  predicate SavedAt<V(==)>(c: Cell<V>, init: V, i: nat) {
    i < |c.log| && c.log[i].id in c.saved && c.saved[c.log[i].id] == Expected(init, c.log, i)
  }

  predicate Listed<V>(log: seq<Entry<V>>, id: Id) {
    exists i :: 0 <= i < |log| && log[i].id == id
  }

  /** The log holds the live setters, once each, and each saved what was expected before its set. */
  ghost predicate Chained<V>(c: Cell<V>, init: V) {
    && (forall i: nat :: i < |c.log| ==> SavedAt(c, init, i))
    && (forall i, j :: 0 <= i < j < |c.log| ==> c.log[i].id != c.log[j].id)
    && (forall id :: id in c.saved ==> Listed(c.log, id))
  }

  ghost predicate Inv<V>(c: Cell<V>, init: V) {
    InForce(c, init) && Chained(c, init)
  }

  function Without<V>(log: seq<Entry<V>>, id: Id): seq<Entry<V>> {
    if log == [] then [] else (if log[0].id == id then [] else [log[0]]) + Without(log[1..], id)
  }

  /** A scope sets the parameter for the first time. */
  function SetBy<V>(c: Cell<V>, id: Id, v: V): Cell<V> {
    Cell(v, c.saved[id := c.now], c.log + [Entry(id, v)])
  }

  /** A scope ends, putting back what it saved. */
  function EndOf<V>(c: Cell<V>, id: Id): Cell<V> {
    Cell(if id in c.saved then c.saved[id] else c.now, c.saved - {id}, Without(c.log, id))
  }

  /** The scope is the latest live one to set the parameter, or never set it. */
  predicate OnTop<V>(c: Cell<V>, id: Id) {
    id in c.saved ==> c.log != [] && c.log[|c.log| - 1].id == id
  }

  lemma {:induction false} WithoutAbsent<V>(log: seq<Entry<V>>, id: Id)
    requires forall i :: 0 <= i < |log| ==> log[i].id != id
    ensures Without(log, id) == log
  {
    if log != [] {
      WithoutAbsent(log[1..], id);
    }
  }

  lemma {:induction false} WithoutAt<V>(log: seq<Entry<V>>, k: nat)
    requires k < |log|
    requires forall i :: 0 <= i < |log| && i != k ==> log[i].id != log[k].id
    ensures Without(log, log[k].id) == log[..k] + log[k + 1..]
  {
    if k == 0 {
      WithoutAbsent(log[1..], log[0].id);
    } else {
      WithoutAt(log[1..], k - 1);
      assert log[1..][..k - 1] == log[1..k] && log[1..][k..] == log[k + 1..];
      assert [log[0]] + log[1..k] == log[..k];
    }
  }

  lemma SetKeeps<V>(c: Cell<V>, init: V, id: Id, v: V)
    requires Inv(c, init) && id !in c.saved
    ensures Inv(SetBy(c, id, v), init)
  {
    var c', n := SetBy(c, id, v), |c.log|;
    forall i: nat | i <= n ensures SavedAt(c', init, i) && (i < n ==> c'.log[i].id != id) {
      if i < n {
        assert SavedAt(c, init, i);
      }
    }
    forall k | k in c'.saved ensures Listed(c'.log, k) {
      if k == id {
        assert c'.log[n].id == id;
      } else {
        assert Listed(c.log, k);
        var i :| 0 <= i < n && c.log[i].id == k;
        assert c'.log[i].id == k;
      }
    }
  }

  /** The chain without its last link. */
  lemma EndOnTop<V>(c: Cell<V>, init: V, id: Id, c': Cell<V>)
    requires Inv(c, init) && c.log != [] && c.log[|c.log| - 1].id == id && id in c.saved
    requires c' == Cell(c.saved[id], c.saved - {id}, c.log[..|c.log| - 1])
    ensures Inv(c', init)
  {
    var n := |c.log| - 1;
    assert SavedAt(c, init, n);
    forall i: nat | i < n ensures SavedAt(c', init, i) {
      assert SavedAt(c, init, i);
    }
    forall k | k in c'.saved ensures Listed(c'.log, k) {
      assert Listed(c.log, k);
      var i :| 0 <= i < |c.log| && c.log[i].id == k;
      assert c'.log[i].id == k;
    }
  }

  lemma EndKeeps<V>(c: Cell<V>, init: V, id: Id)
    requires Inv(c, init) && OnTop(c, id)
    ensures Inv(EndOf(c, id), init)
  {
    hide Without;
    if id in c.saved {
      var n := |c.log| - 1;
      WithoutAt(c.log, n);
      assert c.log[..n] + c.log[n + 1..] == c.log[..n];
      EndOnTop(c, init, id, EndOf(c, id));
    } else {
      NotListed(c, init, id);
      assert EndOf(c, id) == c;
    }
  }

  lemma NotListed<V>(c: Cell<V>, init: V, id: Id)
    requires Inv(c, init) && id !in c.saved
    ensures Without(c.log, id) == c.log
  {
    forall i: nat | i < |c.log| ensures c.log[i].id != id {
      assert SavedAt(c, init, i);
    }
    WithoutAbsent(c.log, id);
  }

  /** Ending a scope on top takes the last set off the log, or nothing. */
  lemma EndLog<V>(c: Cell<V>, init: V, id: Id)
    requires Inv(c, init) && OnTop(c, id)
    ensures EndOf(c, id).log == if id in c.saved then c.log[..|c.log| - 1] else c.log
    ensures forall i :: 0 <= i < |EndOf(c, id).log| ==> c.log[i].id != id
  {
    hide Without;
    if id in c.saved {
      var n := |c.log| - 1;
      WithoutAt(c.log, n);
      assert c.log[..n] + c.log[n + 1..] == c.log[..n];
    } else {
      NotListed(c, init, id);
      forall i: nat | i < |c.log| ensures c.log[i].id != id {
        assert SavedAt(c, init, i);
      }
    }
  }

  lemma LoggedIsSaved<V>(c: Cell<V>, init: V)
    requires Inv(c, init)
    ensures c.log != [] ==> c.saved != map[]
  {
    if c.log != [] {
      assert SavedAt(c, init, 0);
    }
  }

  /** Ending a scope that set the parameter keeps the promise exactly when the scope is on top, or
      saved the very value that is in force: below the top, the last value set is still owed. */
  lemma EndBreaks<V>(c: Cell<V>, init: V, id: Id)
    requires Inv(c, init) && id in c.saved
    ensures InForce(EndOf(c, id), init) <==> OnTop(c, id) || c.saved[id] == c.now
  {
    hide Without;
    assert Listed(c.log, id);
    var k :| 0 <= k < |c.log| && c.log[k].id == id;
    var n := |c.log| - 1;
    WithoutAt(c.log, k);
    if k < n {
      assert Without(c.log, id)[n - 1] == c.log[n];
    } else {
      EndKeeps(c, init, id);
    }
  }

  /** No value is set twice, or set to the initial one. */
  ghost predicate Distinct<V>(init: V, log: seq<Entry<V>>) {
    && (forall i :: 0 <= i < |log| ==> log[i].v != init)
    && (forall i, j :: 0 <= i < j < |log| ==> log[i].v != log[j].v)
  }

  /** With distinct values, ending a scope keeps the promise exactly when the scope is on top. */
  lemma EndExact<V>(c: Cell<V>, init: V, id: Id)
    requires Inv(c, init) && Distinct(init, c.log)
    ensures InForce(EndOf(c, id), init) <==> OnTop(c, id)
  {
    hide Without;
    if id in c.saved {
      EndBreaks(c, init, id);
      assert Listed(c.log, id);
      var k :| 0 <= k < |c.log| && c.log[k].id == id;
      assert SavedAt(c, init, k);
    } else {
      NotListed(c, init, id);
    }
  }

  /** The initial value can come back all the same: of three setters the second ends before the third, and
      in between the parameter is not what the latest live one gave it; the first ends last. */
  lemma RestoredOutOfOrder()
    ensures var c := SetBy(SetBy(SetBy(Cell(0, map[], []), 0, 1), 1, 2), 2, 3);
      && !OnTop(c, 1) && !InForce(EndOf(c, 1), 0)
      && EndOf(EndOf(EndOf(c, 1), 2), 0).now == 0
  {
    var c := SetBy(SetBy(SetBy(Cell(0, map[], []), 0, 1), 1, 2), 2, 3);
    assert c == Cell(3, map[0 := 0, 1 := 1, 2 := 2], [Entry(0, 1), Entry(1, 2), Entry(2, 3)]);
    WithoutAt(c.log, 1);
    assert EndOf(c, 1).log == [Entry(0, 1), Entry(2, 3)];
  }

  // ----- where the initial value is -----

  /** The initial value is in force or waiting to be put back. */
  ghost predicate Present<V>(c: Cell<V>, init: V) {
    c.now == init || exists id :: id in c.saved && c.saved[id] == init
  }

  /** And in one place at most. */
  ghost predicate OncePresent<V>(c: Cell<V>, init: V) {
    && (forall id :: id in c.saved && c.saved[id] == init ==> c.now != init)
    && (forall id, other :: id in c.saved && other in c.saved && c.saved[id] == init && c.saved[other] == init ==>
         id == other)
  }

  /** Setting another value keeps the initial one where it can come back from. */
  lemma SetPresent<V>(c: Cell<V>, init: V, id: Id, v: V)
    requires OncePresent(c, init) && id !in c.saved && v != init
    ensures OncePresent(SetBy(c, id, v), init) && (Present(SetBy(c, id, v), init) <==> Present(c, init))
  {
    var n := SetBy(c, id, v);
    assert forall other :: other in c.saved ==> other in n.saved && n.saved[other] == c.saved[other];
    assert n.saved[id] == c.now;
  }

  /** The end of a setter loses the initial value exactly when that is in force. */
  lemma EndPresent<V>(c: Cell<V>, init: V, id: Id)
    requires OncePresent(c, init) && id in c.saved
    ensures OncePresent(EndOf(c, id), init) && (Present(EndOf(c, id), init) <==> Present(c, init) && c.now != init)
  {
    var n := EndOf(c, id);
    assert forall other :: other in n.saved ==> other in c.saved && n.saved[other] == c.saved[other];
    assert forall other :: other in c.saved && other != id ==> other in n.saved;
  }

  lemma EndAbsent<V>(c: Cell<V>, init: V, id: Id)
    requires OncePresent(c, init) && id !in c.saved
    ensures OncePresent(EndOf(c, id), init) && (Present(EndOf(c, id), init) <==> Present(c, init))
  {
    assert EndOf(c, id).saved == c.saved;
  }
}
