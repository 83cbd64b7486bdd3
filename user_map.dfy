/** `connectedUsers`: a JavaScript `Map` from socket id to username. A `Map`
    remembers insertion order, so it is modelled as a sequence of entries with
    distinct ids, oldest first; `set` on a present key overwrites the value in
    place and `set` on a new key appends. */
module UserMap {
  import opened JsText
  import opened Protocol

  datatype Entry = Entry(id: ConnId, name: JsString)

  /** `map.has(id)`. */
  predicate HasKey(users: seq<Entry>, id: ConnId) {
    exists k :: 0 <= k < |users| && users[k].id == id
  }

  /** `Array.from(map.values())`: the usernames in insertion order. */
  function Values(users: seq<Entry>): (names: seq<JsString>)
    ensures |names| == |users|
    ensures forall k :: 0 <= k < |users| ==> names[k] == users[k].name
  {
    seq(|users|, k requires 0 <= k < |users| => users[k].name)
  }

  predicate DistinctIds(users: seq<Entry>) {
    forall i, j :: 0 <= i < j < |users| ==> users[i].id != users[j].id
  }

  predicate DistinctNames(users: seq<Entry>) {
    forall i, j :: 0 <= i < j < |users| ==> users[i].name != users[j].name
  }

  /** The room invariant: a map (distinct keys) of at most `MAX_USERS`
      entries whose usernames are pairwise distinct. */
  predicate WellFormed(users: seq<Entry>) {
    |users| <= MaxUsers && DistinctIds(users) && DistinctNames(users)
  }

  /** `map.set(id, name)`; the keys of a `Map` are distinct by construction. */
  function Set(users: seq<Entry>, id: ConnId, name: JsString): (r: seq<Entry>)
    requires DistinctIds(users)
    ensures HasKey(users, id) ==> |r| == |users|
    ensures !HasKey(users, id) ==> r == users + [Entry(id, name)]
    ensures forall k :: 0 <= k < |users| ==>
              r[k] == if users[k].id == id then Entry(id, name) else users[k]
  {
    if users == [] then [Entry(id, name)]
    else if users[0].id == id then [Entry(id, name)] + users[1..]
    else
      assert HasKey(users, id) ==> HasKey(users[1..], id) by {
        if HasKey(users, id) {
          var k :| 0 <= k < |users| && users[k].id == id;
          assert users[1..][k - 1].id == id;
        }
      }
      [users[0]] + Set(users[1..], id, name)
  }

  /** `map.get(id)`. */
  function Get(users: seq<Entry>, id: ConnId): (r: Option<JsString>)
    requires DistinctIds(users)
    ensures r.Some? <==> HasKey(users, id)
    ensures r.Some? ==> Entry(id, r.value) in users
  {
    if users == [] then None
    else if users[0].id == id then Some(users[0].name)
    else
      assert HasKey(users, id) ==> HasKey(users[1..], id) by {
        if HasKey(users, id) {
          var k :| 0 <= k < |users| && users[k].id == id;
          assert users[1..][k - 1].id == id;
        }
      }
      Get(users[1..], id)
  }

  /** `map.delete(id)`: the entries with other ids, in their order. */
  function Delete(users: seq<Entry>, id: ConnId): (r: seq<Entry>)
    ensures |r| <= |users|
    ensures !HasKey(users, id) ==> r == users
  {
    if users == [] then []
    else if users[0].id == id then Delete(users[1..], id)
    else
      assert !HasKey(users, id) ==> !HasKey(users[1..], id) by {
        if HasKey(users[1..], id) {
          var k :| 0 <= k < |users[1..]| && users[1..][k].id == id;
          assert users[k + 1].id == id;
        }
      }
      [users[0]] + Delete(users[1..], id)
  }

  /** After `delete`, the map holds exactly the entries with other ids. */
  lemma {:induction false} DeleteMembers(users: seq<Entry>, id: ConnId)
    ensures forall e :: e in Delete(users, id) <==> e in users && e.id != id
  {
    if users != [] {
      DeleteMembers(users[1..], id);
      assert users == [users[0]] + users[1..];
    }
  }

  /** In a map whose keys are distinct, deleting the key at position `k`
      removes exactly that entry and keeps the order of the others. */
  lemma {:induction false} DeleteAt(users: seq<Entry>, k: nat)
    requires DistinctIds(users) && k < |users|
    ensures Delete(users, users[k].id) == users[..k] + users[k + 1..]
  {
    var id := users[k].id;
    var tail := users[1..];
    TailDistinct(users);
    if k == 0 {
      DeleteHead(users);
    } else {
      assert tail[k - 1] == users[k] && users[0].id != id;
      DeleteAt(tail, k - 1);
      calc {
        Delete(users, id);
        [users[0]] + Delete(tail, id);
        [users[0]] + (tail[..k - 1] + tail[k..]);
        { assert tail[..k - 1] == users[1..k] && tail[k..] == users[k + 1..]; }
        [users[0]] + users[1..k] + users[k + 1..];
        { assert [users[0]] + users[1..k] == users[..k]; }
        users[..k] + users[k + 1..];
      }
    }
  }

  lemma DeleteHead(users: seq<Entry>)
    requires DistinctIds(users) && users != []
    ensures Delete(users, users[0].id) == users[1..]
  {
    var id, tail := users[0].id, users[1..];
    assert Delete(users, id) == Delete(tail, id);
    assert !HasKey(tail, id) by {
      forall j | 0 <= j < |tail| ensures tail[j].id != id {
        assert tail[j] == users[j + 1];
      }
    }
  }

  lemma TailDistinct(users: seq<Entry>)
    requires DistinctIds(users) && users != []
    ensures DistinctIds(users[1..])
  {
    var tail := users[1..];
    forall i, j | 0 <= i < j < |tail| ensures tail[i].id != tail[j].id {
      assert tail[i] == users[i + 1] && tail[j] == users[j + 1];
    }
  }

  /** Deleting a present key shrinks a map by exactly one entry, and the
      remaining usernames are the old ones without the deleted entry's. */
  lemma DeleteShrinks(users: seq<Entry>, k: nat)
    requires DistinctIds(users) && k < |users|
    ensures |Delete(users, users[k].id)| == |users| - 1
    ensures Values(Delete(users, users[k].id)) == Values(users[..k]) + Values(users[k + 1..])
  {
    DeleteAt(users, k);
    var r := users[..k] + users[k + 1..];
    assert Values(r) == Values(users[..k]) + Values(users[k + 1..]);
  }

  /** `set` of a fresh username keeps the map well-formed as long as it does
      not grow past `MAX_USERS`: keys stay distinct because `set` overwrites a
      present key, and names stay distinct because the new one is fresh. */
  lemma SetKeepsDistinct(users: seq<Entry>, id: ConnId, name: JsString)
    requires DistinctIds(users) && DistinctNames(users) && name !in Values(users)
    ensures DistinctIds(Set(users, id, name)) && DistinctNames(Set(users, id, name))
  {
    var r := Set(users, id, name);
    forall i, j | 0 <= i < j < |r| ensures r[i].name != r[j].name && r[i].id != r[j].id {
      if j == |users| {
        assert users[i].name == Values(users)[i];
      } else {
        assert users[i].name == Values(users)[i];
        assert users[j].name == Values(users)[j];
      }
    }
  }

  /** After `set`, the map holds the new entry and, besides it, exactly the
      entries with other ids. */
  lemma SetMembers(users: seq<Entry>, id: ConnId, name: JsString)
    requires DistinctIds(users)
    ensures forall e :: e in Set(users, id, name) <==> e == Entry(id, name) || (e in users && e.id != id)
  {
    var r := Set(users, id, name);
    if HasKey(users, id) {
      var k :| 0 <= k < |users| && users[k].id == id;
      assert r[k] == Entry(id, name);
    } else {
      assert r[|users|] == Entry(id, name);
    }
    forall e | e in users && e.id != id ensures e in r {
      var k :| 0 <= k < |users| && users[k] == e;
      assert r[k] == e;
    }
  }

  /** Deleting keeps distinct keys and distinct names. */
  lemma DeleteKeepsWellFormed(users: seq<Entry>, id: ConnId)
    requires WellFormed(users)
    ensures WellFormed(Delete(users, id))
  {
    if HasKey(users, id) {
      var k :| 0 <= k < |users| && users[k].id == id;
      DeleteAt(users, k);
    }
  }
}
