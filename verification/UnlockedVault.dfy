/** The in-memory vault: the entry operations, sealing and locking. */
module UnlockedVaults {
  import opened Basics
  import opened Json
  import opened Crypto
  import opened Vault

  // ---- The operations on entry lists ----

  function Added(es: seq<Entry>, e: Entry): Result<seq<Entry>> {
    var _ :- ValidateEntry(e);
    if e.id in Ids(es) then Err(InvalidEntry)
    else if |es| >= MAX_ENTRIES then Err(InvalidEntry)
    else Ok(es + [e])
  }

  /** The first entry with the id of `e` is replaced. */
  function UpdatedFirst(es: seq<Entry>, e: Entry): (r: seq<Entry>)
    ensures |r| == |es|
  {
    if es == [] then []
    else if es[0].id == e.id then [e] + es[1..]
    else [es[0]] + UpdatedFirst(es[1..], e)
  }

  /** Every entry with another id is retained. */
  function Retained(es: seq<Entry>, id: string): (r: seq<Entry>)
    ensures |r| <= |es|
  {
    if es == [] then []
    else if es[0].id != id then [es[0]] + Retained(es[1..], id)
    else Retained(es[1..], id)
  }

  /** The class keeps `entries` as the source's vector and replaces its parts in place. */
  class UnlockedVault {
    var entries: seq<Entry>
    var vaultKey: Bytes
    var wrappedKey: EncryptedBlob
    var kdf: KdfSection
    var version: u32

    constructor (v: VaultState)
      ensures State() == v
    {
      entries, vaultKey, wrappedKey, kdf, version := v.entries, v.vaultKey, v.wrappedKey, v.kdf, v.version;
    }

    function State(): VaultState
      reads this
    {
      VaultState(entries, vaultKey, wrappedKey, kdf, version)
    }

    method AddEntry(entry: Entry) returns (r: Result<Unit>)
      modifies this`entries
      ensures r == (match Added(old(entries), entry) case Ok(_) => Ok(Unit) case Err(e) => Err(e))
      ensures r.Ok? <==> Acceptable(entry) && (forall i :: 0 <= i < |old(entries)| ==> old(entries)[i].id != entry.id)
                         && |old(entries)| < 100_000
      ensures r.Err? ==> r.error == InvalidEntry
      ensures entries == if r.Ok? then old(entries) + [entry] else old(entries)
    {
      EntryIsAcceptedExactlyWhen(entry);
      var valid := ValidateEntry(entry);
      if valid.Err? {
        return valid;
      }
      if exists i :: 0 <= i < |entries| && entries[i].id == entry.id {
        assert entry.id in Ids(entries);
        return Err(InvalidEntry);
      }
      if |entries| >= MAX_ENTRIES {
        return Err(InvalidEntry);
      }
      entries := entries + [entry];
      return Ok(Unit);
    }

    method UpdateEntry(entry: Entry) returns (r: Result<bool>)
      modifies this`entries
      ensures ValidateEntry(entry).Err? ==> r == Err(InvalidEntry) && entries == old(entries)
      ensures ValidateEntry(entry).Ok? ==>
                && r == Ok(entry.id in Ids(old(entries)))
                && entries == UpdatedFirst(old(entries), entry)
      ensures r.Err? <==> !Acceptable(entry)
    {
      EntryIsAcceptedExactlyWhen(entry);
      var valid := ValidateEntry(entry);
      if valid.Err? {
        return Err(valid.error);
      }
      for i := 0 to |entries|
        invariant entries == old(entries)
        invariant forall j :: 0 <= j < i ==> entries[j].id != entry.id
      {
        if entries[i].id == entry.id {
          UpdatedFirstAt(entries, entry, i);
          assert entry.id == Ids(entries)[i];
          entries := entries[i := entry];
          return Ok(true);
        }
      }
      UpdatedFirstNowhere(entries, entry);
      return Ok(false);
    }

    method RemoveEntry(id: string) returns (removed: bool)
      modifies this`entries
      ensures entries == Retained(old(entries), id)
      ensures removed == (id in Ids(old(entries)))
    {
      var before := |entries|;
      entries := Retained(entries, id);
      RetainedLength(old(entries), id);
      return before != |entries|;
    }

    method Lock()
      modifies this
      ensures State() == old(State()).(entries := [], vaultKey := [])
    {
      entries := [];
      vaultKey := [];
    }
  }

  lemma {:induction false} UpdatedFirstAt(es: seq<Entry>, e: Entry, i: nat)
    requires i < |es| && es[i].id == e.id
    requires forall j :: 0 <= j < i ==> es[j].id != e.id
    ensures UpdatedFirst(es, e) == es[i := e]
  {
    if i > 0 {
      UpdatedFirstAt(es[1..], e, i - 1);
    }
  }

  lemma {:induction false} UpdatedFirstNowhere(es: seq<Entry>, e: Entry)
    requires forall j :: 0 <= j < |es| ==> es[j].id != e.id
    ensures UpdatedFirst(es, e) == es
    ensures e.id !in Ids(es)
  {
    if es != [] {
      UpdatedFirstNowhere(es[1..], e);
    }
  }

  lemma {:induction false} RetainedLength(es: seq<Entry>, id: string)
    ensures |Retained(es, id)| < |es| <==> id in Ids(es)
  {
    if es != [] {
      RetainedLength(es[1..], id);
      assert Ids(es) == [es[0].id] + Ids(es[1..]);
    }
  }

  lemma {:induction false} RetainedNowhere(es: seq<Entry>, id: string)
    requires forall i :: 0 <= i < |es| ==> es[i].id != id
    ensures Retained(es, id) == es
  {
    if es != [] {
      RetainedNowhere(es[1..], id);
      assert es == [es[0]] + es[1..];
    }
  }

  // ---- Refinement: a list with distinct ids is a map together with an insertion order ----

  function AsMap(es: seq<Entry>): (m: map<string, Entry>)
    ensures forall id :: id in m <==> id in Ids(es)
  {
    if es == [] then map[]
    else
      assert Ids(es) == [es[0].id] + Ids(es[1..]);
      AsMap(es[1..])[es[0].id := es[0]]
  }

  lemma {:induction false} AsMapAt(es: seq<Entry>, i: nat)
    requires Distinct(Ids(es)) && i < |es|
    ensures Ids(es)[i] in AsMap(es) && AsMap(es)[Ids(es)[i]] == es[i]
  {
    if i > 0 {
      assert Ids(es[1..]) == Ids(es)[1..];
      AsMapAt(es[1..], i - 1);
      assert Ids(es)[0] != Ids(es)[i];
    }
  }

  /** The order of the ids and the map determine the list. */
  lemma ListFromOrderAndMap(es: seq<Entry>, fs: seq<Entry>)
    requires Distinct(Ids(es)) && Ids(es) == Ids(fs) && AsMap(es) == AsMap(fs)
    ensures es == fs
  {
    forall i | 0 <= i < |es| ensures es[i] == fs[i] {
      AsMapAt(es, i);
      AsMapAt(fs, i);
    }
  }

  function Without(ids: seq<string>, id: string): seq<string> {
    if ids == [] then []
    else if ids[0] == id then Without(ids[1..], id)
    else [ids[0]] + Without(ids[1..], id)
  }

  lemma HeadAndTail(es: seq<Entry>)
    requires es != []
    ensures Ids(es) == [es[0].id] + Ids(es[1..])
    ensures Distinct(Ids(es)) ==> es[0].id !in Ids(es[1..]) && Distinct(Ids(es[1..]))
  {
    var ids, tail := Ids(es), Ids(es[1..]);
    assert ids == [es[0].id] + tail;
    if Distinct(ids) {
      forall i | 0 <= i < |tail| ensures tail[i] != es[0].id {
        assert ids[0] != ids[i + 1];
      }
    }
  }

  lemma ConsDistinct(id: string, ids: seq<string>)
    requires Distinct(ids) && id !in ids
    ensures Distinct([id] + ids)
  {}

  lemma {:induction false} AsMapOfAppend(es: seq<Entry>, e: Entry)
    requires e.id !in Ids(es)
    ensures AsMap(es + [e]) == AsMap(es)[e.id := e]
  {
    if es == [] {
      assert [] + [e] == [e];
    } else {
      assert (es + [e])[1..] == es[1..] + [e];
      HeadAndTail(es);
      AsMapOfAppend(es[1..], e);
    }
  }

  lemma AppendedIds(es: seq<Entry>, e: Entry)
    ensures Ids(es + [e]) == Ids(es) + [e.id]
  {}

  /** `add_entry` is insertion at the end of the order, refused when the id is taken. */
  lemma AddRefinesInsert(es: seq<Entry>, e: Entry)
    requires ValidList(es)
    ensures Added(es, e).Ok? <==> ValidateEntry(e).Ok? && e.id !in AsMap(es) && |es| < MAX_ENTRIES
    ensures Added(es, e).Ok? ==>
              var es' := Added(es, e).value;
              Ids(es') == Ids(es) + [e.id] && AsMap(es') == AsMap(es)[e.id := e]
  {
    if e.id !in Ids(es) {
      AsMapOfAppend(es, e);
      AppendedIds(es, e);
    }
  }

  lemma AddKeepsValid(es: seq<Entry>, e: Entry)
    requires ValidList(es) && Added(es, e).Ok?
    ensures ValidList(Added(es, e).value)
  {
    var es' := es + [e];
    assert Ids(es') == Ids(es) + [e.id];
    assert forall i :: 0 <= i < |es'| ==> es'[i] == e || (i < |es| && es'[i] == es[i]);
  }

  lemma {:induction false} UpdateKeepsOrder(es: seq<Entry>, e: Entry)
    ensures Ids(UpdatedFirst(es, e)) == Ids(es)
  {
    if es != [] {
      UpdateKeepsOrder(es[1..], e);
      HeadAndTail(es);
      HeadAndTail(UpdatedFirst(es, e));
      assert UpdatedFirst(es, e)[1..] == if es[0].id == e.id then es[1..] else UpdatedFirst(es[1..], e);
    }
  }

  lemma AsMapOfCons(x: Entry, tail: seq<Entry>)
    ensures AsMap([x] + tail) == AsMap(tail)[x.id := x]
  {
    assert ([x] + tail)[1..] == tail;
  }

  lemma UpdateTwice(m: map<string, Entry>, x: Entry, e: Entry)
    requires x.id == e.id
    ensures m[x.id := x][e.id := e] == m[e.id := e]
  {}

  lemma UpdateApart(m: map<string, Entry>, x: Entry, e: Entry)
    requires x.id != e.id
    ensures m[e.id := e][x.id := x] == m[x.id := x][e.id := e]
    ensures e.id in m[x.id := x] <==> e.id in m
  {}

  lemma {:induction false} UpdateOfMap(es: seq<Entry>, e: Entry)
    requires Distinct(Ids(es))
    ensures AsMap(UpdatedFirst(es, e)) == if e.id in AsMap(es) then AsMap(es)[e.id := e] else AsMap(es)
  {
    if es != [] {
      var x, tail := es[0], es[1..];
      HeadAndTail(es);
      if x.id == e.id {
        AsMapOfCons(e, tail);
        UpdateTwice(AsMap(tail), x, e);
      } else {
        UpdateOfMap(tail, e);
        AsMapOfCons(x, UpdatedFirst(tail, e));
        UpdateApart(AsMap(tail), x, e);
      }
    }
  }

  /** `update_entry` is map update of a present key; it keeps the order. */
  lemma UpdateRefinesMapUpdate(es: seq<Entry>, e: Entry)
    requires Distinct(Ids(es))
    ensures Ids(UpdatedFirst(es, e)) == Ids(es)
    ensures AsMap(UpdatedFirst(es, e)) == if e.id in AsMap(es) then AsMap(es)[e.id := e] else AsMap(es)
  {
    UpdateKeepsOrder(es, e);
    UpdateOfMap(es, e);
  }

  lemma {:induction false} UpdatedFrom(es: seq<Entry>, e: Entry)
    ensures var r := UpdatedFirst(es, e); forall i :: 0 <= i < |es| ==> r[i] == e || r[i] == es[i]
  {
    if es != [] {
      UpdatedFrom(es[1..], e);
    }
  }

  lemma UpdateKeepsValid(es: seq<Entry>, e: Entry)
    requires ValidList(es) && ValidateEntry(e).Ok?
    ensures ValidList(UpdatedFirst(es, e))
  {
    UpdateRefinesMapUpdate(es, e);
    UpdatedFrom(es, e);
  }

  lemma {:induction false} RemoveKeepsOrder(es: seq<Entry>, id: string)
    ensures Ids(Retained(es, id)) == Without(Ids(es), id)
  {
    if es != [] {
      var r := Retained(es, id);
      HeadAndTail(es);
      RemoveKeepsOrder(es[1..], id);
      if es[0].id != id {
        HeadAndTail(r);
        assert r[1..] == Retained(es[1..], id);
      }
      assert Ids(es)[1..] == Ids(es[1..]);
    }
  }

  lemma UpdateThenDelete(m: map<string, Entry>, k: string, e: Entry, id: string)
    ensures m[k := e] - {id} == if k == id then m - {id} else (m - {id})[k := e]
  {}

  lemma {:induction false} RemoveOfMap(es: seq<Entry>, id: string)
    ensures AsMap(Retained(es, id)) == AsMap(es) - {id}
  {
    if es != [] {
      var r := Retained(es, id);
      RemoveOfMap(es[1..], id);
      UpdateThenDelete(AsMap(es[1..]), es[0].id, es[0], id);
      if es[0].id != id {
        assert r[1..] == Retained(es[1..], id);
      }
    }
  }

  lemma {:induction false} RemoveDropsAtMostOne(es: seq<Entry>, id: string)
    requires Distinct(Ids(es))
    ensures |Retained(es, id)| == |es| - (if id in Ids(es) then 1 else 0)
  {
    if es != [] {
      HeadAndTail(es);
      RemoveDropsAtMostOne(es[1..], id);
    }
  }

  /** `remove_entry` is map deletion; it keeps the order of the rest and drops at most one entry. */
  lemma RemoveRefinesMapDelete(es: seq<Entry>, id: string)
    requires Distinct(Ids(es))
    ensures Ids(Retained(es, id)) == Without(Ids(es), id)
    ensures AsMap(Retained(es, id)) == AsMap(es) - {id}
    ensures |Retained(es, id)| == |es| - (if id in AsMap(es) then 1 else 0)
  {
    RemoveKeepsOrder(es, id);
    RemoveOfMap(es, id);
    RemoveDropsAtMostOne(es, id);
  }

  lemma {:induction false} RetainedFrom(es: seq<Entry>, id: string)
    ensures forall x :: x in Retained(es, id) ==> x in es
  {
    if es != [] {
      RetainedFrom(es[1..], id);
      assert es == [es[0]] + es[1..];
    }
  }

  lemma {:induction false} RemoveKeepsDistinct(es: seq<Entry>, id: string)
    requires Distinct(Ids(es))
    ensures Distinct(Ids(Retained(es, id)))
    ensures forall k :: k in Ids(Retained(es, id)) ==> k in Ids(es)
  {
    if es != [] {
      HeadAndTail(es);
      RemoveKeepsDistinct(es[1..], id);
      var r := Retained(es, id);
      if es[0].id != id {
        HeadAndTail(r);
        assert r[1..] == Retained(es[1..], id);
        ConsDistinct(es[0].id, Ids(r[1..]));
      }
    }
  }

  lemma RemoveKeepsValid(es: seq<Entry>, id: string)
    requires ValidList(es)
    ensures ValidList(Retained(es, id))
  {
    RemoveKeepsDistinct(es, id);
    RetainedFrom(es, id);
    var r := Retained(es, id);
    forall i | 0 <= i < |r| ensures ValidateEntry(r[i]).Ok? {
      assert r[i] in es;
      var j :| 0 <= j < |es| && es[j] == r[i];
    }
  }
}
