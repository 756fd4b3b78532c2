/** The subscription table: an array of slots in which sid 0 marks a free slot, searched from the front. */
module Subscriptions {
  /** A slot; `handler` stands for the callback and its data. */
  datatype Sub = Sub(sid: nat, client: nat, handler: nat, max: int, recv: nat)

  /** Index of the first slot with this sid, |subs| if none. */
  function Find(subs: seq<Sub>, sid: nat): (k: nat)
    ensures k <= |subs|
    ensures forall i :: 0 <= i < k ==> subs[i].sid != sid
    ensures k < |subs| ==> subs[k].sid == sid
  {
    FindFrom(subs, sid, 0)
  }

  function FindFrom(subs: seq<Sub>, sid: nat, i: nat): (k: nat)
    requires i <= |subs|
    ensures i <= k <= |subs|
    ensures forall j :: i <= j < k ==> subs[j].sid != sid
    ensures k < |subs| ==> subs[k].sid == sid
    decreases |subs| - i
  {
    if i == |subs| || subs[i].sid == sid then i else FindFrom(subs, sid, i + 1)
  }

  /** Puts a subscription into the first free slot, or behind the last. */
  function Add(subs: seq<Sub>, s: Sub): seq<Sub> {
    var k := Find(subs, 0);
    if k < |subs| then subs[k := s] else subs + [s]
  }

  /** Frees the first slot with this sid; sid 0 is left alone. */
  function Remove(subs: seq<Sub>, sid: nat): seq<Sub> {
    var k := Find(subs, sid);
    if sid == 0 || k == |subs| then subs else subs[k := subs[k].(sid := 0)]
  }

  /** The accounting of a delivery to the subscription in slot k: counted, and freed when its maximum is reached. */
  function Account(subs: seq<Sub>, k: nat): seq<Sub>
    requires k < |subs|
  {
    var s := subs[k];
    if s.max <= 0 then subs
    else
      var counted := subs[k := s.(recv := s.recv + 1)];
      if s.recv + 1 >= s.max then Remove(counted, s.sid) else counted
  }

  // The map the table stands for

  /** No two slots carry the same subscription. */
  ghost predicate Distinct(subs: seq<Sub>) {
    forall i, j :: 0 <= i < j < |subs| && subs[i].sid != 0 ==> subs[i].sid != subs[j].sid
  }

  ghost function Sids(subs: seq<Sub>): set<nat> {
    set i | 0 <= i < |subs| && subs[i].sid != 0 :: subs[i].sid
  }

  ghost function Table(subs: seq<Sub>): map<nat, Sub> {
    map sid | sid in Sids(subs) :: SlotOf(subs, sid)
  }

  ghost function SlotOf(subs: seq<Sub>, sid: nat): Sub
    requires sid in Sids(subs)
  {
    subs[Find(subs, sid)]
  }

  /** In a table without duplicates the map holds exactly the slots in use. */
  lemma TableAt(subs: seq<Sub>, i: nat)
    requires Distinct(subs) && i < |subs| && subs[i].sid != 0
    ensures subs[i].sid in Table(subs) && Table(subs)[subs[i].sid] == subs[i] && Find(subs, subs[i].sid) == i
  {
  }

  /** Lookup of any sid above 0 agrees with the map. */
  lemma LookupRefines(subs: seq<Sub>, sid: nat)
    requires Distinct(subs) && sid > 0
    ensures var k := Find(subs, sid);
            (k < |subs| <==> sid in Table(subs)) && (k < |subs| ==> Table(subs)[sid] == subs[k])
  {
  }

  /** Whatever the map says of sid, some slot or none says too; used to compare maps. */
  lemma TableMember(subs: seq<Sub>, sid: nat)
    ensures sid in Table(subs) <==> exists i :: 0 <= i < |subs| && subs[i].sid == sid != 0
  {
  }

  /** Writing a fresh subscription into a free slot or behind the last one extends the map. */
  lemma AddRefines(subs: seq<Sub>, s: Sub)
    requires Distinct(subs) && s.sid > 0 && s.sid !in Table(subs)
    ensures Distinct(Add(subs, s)) && Table(Add(subs, s)) == Table(subs)[s.sid := s]
  {
    hide Table;
    var k, t := Find(subs, 0), Add(subs, s);
    FreshSid(subs, s.sid);
    assert forall i :: 0 <= i < |t| && i != k ==> i < |subs| && t[i] == subs[i];
    assert Distinct(t);
    SameTable(subs, t, k, s);
  }

  lemma FreshSid(subs: seq<Sub>, sid: nat)
    requires sid > 0 && sid !in Table(subs)
    ensures forall i :: 0 <= i < |subs| ==> subs[i].sid != sid
  {
    TableMember(subs, sid);
  }

  /** t differs from subs in slot k only, which was free in subs and holds s in t. */
  lemma SameTable(subs: seq<Sub>, t: seq<Sub>, k: nat, s: Sub)
    requires Distinct(subs) && Distinct(t) && k < |t| && t[k] == s && s.sid > 0
    requires |subs| <= |t| <= |subs| + 1 && (k < |subs| ==> subs[k].sid == 0) && (k == |subs| || |t| == |subs|)
    requires forall i :: 0 <= i < |t| && i != k ==> i < |subs| && t[i] == subs[i]
    requires forall i :: 0 <= i < |subs| ==> subs[i].sid != s.sid
    ensures Table(t) == Table(subs)[s.sid := s]
  {
    hide Table;
    var m := Table(subs)[s.sid := s];
    TableAt(t, k);
    forall sid: nat
      ensures sid in Table(t) <==> sid in m
      ensures sid in Table(t) ==> Table(t)[sid] == m[sid]
    {
      TableMember(t, sid);
      TableMember(subs, sid);
      if sid != s.sid {
        if i :| 0 <= i < |t| && t[i].sid == sid != 0 {
          TableAt(t, i);
          TableAt(subs, i);
        }
        if i :| 0 <= i < |subs| && subs[i].sid == sid != 0 {
          assert t[i] == subs[i];
          TableAt(t, i);
        }
      }
    }
  }

  /** Freeing a slot removes its sid from the map and nothing else. */
  lemma RemoveRefines(subs: seq<Sub>, sid: nat)
    requires Distinct(subs)
    ensures Distinct(Remove(subs, sid))
    ensures Table(Remove(subs, sid)) == Table(subs) - {sid}
  {
    hide Table;
    var t, k := Remove(subs, sid), Find(subs, sid);
    assert forall i :: 0 <= i < |t| && i != k ==> t[i] == subs[i];
    forall x: nat
      ensures x in Table(t) <==> x in Table(subs) - {sid}
      ensures x in Table(t) ==> Table(t)[x] == Table(subs)[x]
    {
      TableMember(t, x);
      TableMember(subs, x);
      if i :| 0 <= i < |t| && t[i].sid == x != 0 {
        TableAt(t, i);
        TableAt(subs, i);
      }
      if i :| 0 <= i < |subs| && subs[i].sid == x != 0 && x != sid {
        assert t[i] == subs[i];
      }
    }
  }

  /** Counting in place changes one entry of the map. */
  lemma CountRefines(subs: seq<Sub>, k: nat, s: Sub)
    requires Distinct(subs) && k < |subs| && subs[k].sid == s.sid > 0
    ensures Distinct(subs[k := s]) && Table(subs[k := s]) == Table(subs)[s.sid := s]
  {
    hide Table;
    var t := subs[k := s];
    assert forall i :: 0 <= i < |t| ==> t[i].sid == subs[i].sid;
    forall x: nat
      ensures x in Table(t) <==> x in Table(subs)[s.sid := s]
      ensures x in Table(t) ==> Table(t)[x] == Table(subs)[s.sid := s][x]
    {
      TableMember(t, x);
      TableMember(subs, x);
      if i :| 0 <= i < |t| && t[i].sid == x != 0 {
        TableAt(t, i);
        TableAt(subs, i);
      }
      if i :| 0 <= i < |subs| && subs[i].sid == x != 0 {
        assert t[i].sid == x;
      }
      TableAt(t, k);
    }
  }

  /** What the map becomes when a message is delivered to sid. */
  function Delivered(m: map<nat, Sub>, sid: nat): map<nat, Sub>
    requires sid in m
  {
    var s := m[sid];
    if s.max <= 0 then m
    else if s.recv + 1 >= s.max then m - {sid}
    else m[sid := s.(recv := s.recv + 1)]
  }

  lemma AccountRefines(subs: seq<Sub>, k: nat)
    requires Distinct(subs) && k < |subs| && subs[k].sid > 0
    ensures Distinct(Account(subs, k))
    ensures subs[k].sid in Table(subs) && Table(Account(subs, k)) == Delivered(Table(subs), subs[k].sid)
  {
    hide Table;
    var s := subs[k];
    TableAt(subs, k);
    if s.max > 0 {
      var counted := subs[k := s.(recv := s.recv + 1)];
      CountRefines(subs, k, s.(recv := s.recv + 1));
      if s.recv + 1 >= s.max {
        RemoveRefines(counted, s.sid);
        assert Table(subs)[s.sid := s.(recv := s.recv + 1)] - {s.sid} == Table(subs) - {s.sid};
      }
    }
  }

  // A lookup of sid 0

  /** A message for sid 0 finds a slot exactly when one is free, although no subscription ever has that sid. */
  lemma ZeroHitsFreeSlot(subs: seq<Sub>)
    ensures Find(subs, 0) < |subs| <==> exists i :: 0 <= i < |subs| && subs[i].sid == 0
    ensures 0 !in Table(subs)
  {
  }
}
