/** The events column of a job: the Python dict of pending event name to event
    token that the queue stores as a JSON object. A dict keeps insertion order,
    and insertion order is the order in which the events are executed, so it is
    modelled as a sequence of (name, token) pairs whose names are distinct. */
module Events {

  /** One pending event: its name and the token sent for it. */
  type Entry = (string, string)

  /** The dict invariant: every name occurs once. */
  predicate DistinctNames(ev: seq<Entry>) {
    forall i, j :: 0 <= i < j < |ev| ==> ev[i].0 != ev[j].0
  }

  /** `name in d` */
  predicate HasKey(ev: seq<Entry>, name: string) {
    exists k :: 0 <= k < |ev| && ev[k].0 == name
  }

  /** `list(d.keys())`: the names, in insertion order. */
  function Keys(ev: seq<Entry>): seq<string> {
    seq(|ev|, k requires 0 <= k < |ev| => ev[k].0)
  }

  /** The position of the first entry named `name`. */
  function Position(ev: seq<Entry>, name: string): (p: nat)
    requires HasKey(ev, name)
    ensures p < |ev| && ev[p].0 == name
    ensures forall k :: 0 <= k < p ==> ev[k].0 != name
  {
    if ev[0].0 == name then 0
    else
      assert HasKey(ev[1..], name) by {
        var k :| 0 <= k < |ev| && ev[k].0 == name;
        assert ev[1..][k - 1].0 == name;
      }
      1 + Position(ev[1..], name)
  }

  /** `d[name]` for a name the dict holds (a missing name raises KeyError in
      Python; the scheduler only looks up names it took from the dict). */
  function Get(ev: seq<Entry>, name: string): (token: string)
    requires HasKey(ev, name)
    ensures token == ev[Position(ev, name)].1
  {
    if ev[0].0 == name then ev[0].1
    else
      assert HasKey(ev[1..], name) by {
        var k :| 0 <= k < |ev| && ev[k].0 == name;
        assert ev[1..][k - 1].0 == name;
      }
      Get(ev[1..], name)
  }

  /** `del d[name]` for a name the dict holds: that entry goes and every other
      entry stays, in its order. */
  function Delete(ev: seq<Entry>, name: string): (rest: seq<Entry>)
    requires HasKey(ev, name)
    ensures rest == ev[..Position(ev, name)] + ev[Position(ev, name) + 1..]
  {
    if ev[0].0 == name then ev[1..]
    else
      assert HasKey(ev[1..], name) by {
        var k :| 0 <= k < |ev| && ev[k].0 == name;
        assert ev[1..][k - 1].0 == name;
      }
      var p := Position(ev[1..], name);
      assert [ev[0]] + (ev[1..][..p] + ev[1..][p + 1..]) == ev[..p + 1] + ev[p + 2..];
      [ev[0]] + Delete(ev[1..], name)
  }

  /** The position in a sequence of the k-th element kept when position p is removed. */
  function Skip(k: nat, p: nat): nat {
    if k < p then k else k + 1
  }

  /** Entry k of the deleted dict is entry Skip(k, p) of the original. */
  lemma DeleteAt(ev: seq<Entry>, name: string, k: nat)
    requires HasKey(ev, name) && k < |ev| - 1
    ensures |Delete(ev, name)| == |ev| - 1
    ensures Delete(ev, name)[k] == ev[Skip(k, Position(ev, name))]
  {
    var p := Position(ev, name);
    var front, back := ev[..p], ev[p + 1..];
    assert Delete(ev, name) == front + back;
    if k < p {
      assert (front + back)[k] == front[k];
    } else {
      assert (front + back)[k] == back[k - p];
    }
  }

  /** Deleting from a dict gives a dict. */
  lemma DeleteKeepsDistinct(ev: seq<Entry>, name: string)
    requires HasKey(ev, name) && DistinctNames(ev)
    ensures DistinctNames(Delete(ev, name))
  {
    var rest := Delete(ev, name);
    forall i, j | 0 <= i < j < |rest| ensures rest[i].0 != rest[j].0 {
      DeleteAt(ev, name, i);
      DeleteAt(ev, name, j);
    }
  }

  /** Deleting a name from a dict leaves no entry of that name. */
  lemma DeleteRemovesName(ev: seq<Entry>, name: string)
    requires HasKey(ev, name) && DistinctNames(ev)
    ensures !HasKey(Delete(ev, name), name)
  {
    var rest := Delete(ev, name);
    var p := Position(ev, name);
    forall k | 0 <= k < |rest| ensures rest[k].0 != name {
      DeleteAt(ev, name, k);
      var q := Skip(k, p);
      if q < p {
        assert ev[q].0 != ev[p].0;
      } else {
        assert ev[p].0 != ev[q].0;
      }
    }
  }

  /** Deleting a name keeps exactly the entries with other names. */
  lemma DeleteKeepsOthers(ev: seq<Entry>, name: string)
    requires HasKey(ev, name) && DistinctNames(ev)
    ensures forall e :: e in Delete(ev, name) <==> e in ev && e.0 != name
  {
    var rest := Delete(ev, name);
    var p := Position(ev, name);
    DeleteRemovesName(ev, name);
    forall e | e in rest ensures e in ev && e.0 != name {
      var k :| 0 <= k < |rest| && rest[k] == e;
      DeleteAt(ev, name, k);
    }
    forall e | e in ev && e.0 != name ensures e in rest {
      var j :| 0 <= j < |ev| && ev[j] == e;
      var k := if j < p then j else j - 1;
      DeleteAt(ev, name, k);
    }
  }

  /** In a dict, taking the first key and deleting it leaves exactly the later
      entries, and the token looked up is the first entry's. */
  lemma DeleteFirst(ev: seq<Entry>)
    requires |ev| > 0
    ensures HasKey(ev, Keys(ev)[0])
    ensures Get(ev, Keys(ev)[0]) == ev[0].1
    ensures Delete(ev, Keys(ev)[0]) == ev[1..]
  {
    assert Keys(ev)[0] == ev[0].0;
  }
}
