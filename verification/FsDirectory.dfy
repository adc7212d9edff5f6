/** The root directory as a map from names to sectors with a bounded number of entries. */
module FsDirectory {
  import opened Bitmap
  import opened DiskModel
  import opened FsSpec
  import opened FsInvariant

  function NameSet(slots: seq<Slot>): set<string> {
    set k | 0 <= k < |slots| && slots[k].inUse :: slots[k].name
  }

  /** The directory as a map. */
  function Entries(slots: seq<Slot>): map<string, nat> {
    map name | name in NameSet(slots) ::
      var k := FindSlot(slots, name, 0);
      if k.Some? then slots[k.value].sector else 0
  }

  /** No name is in use twice. */
  ghost predicate NamesOnce(slots: seq<Slot>) {
    forall j, k :: 0 <= j < k < |slots| && slots[j].inUse && slots[k].inUse ==> slots[j].name != slots[k].name
  }

  lemma FindIsFound(slots: seq<Slot>, k: nat)
    requires NamesOnce(slots) && k < |slots| && slots[k].inUse
    ensures FindSlot(slots, slots[k].name, 0) == Some(k)
  {
  }

  lemma InNames(slots: seq<Slot>, name: string)
    ensures name in NameSet(slots) <==> FindSlot(slots, name, 0).Some?
  {
  }

  /** lookup finds a name exactly when the map holds it and no read comes back short before
      its entry, and with the map's sector. */
  lemma LookupIsMap(slots: seq<Slot>, name: string, look: nat)
    ensures name in Entries(slots) <==> FindSlot(slots, name, 0).Some?
    ensures var k := Lookup(slots, name, look);
            && (k.Some? <==> name in Entries(slots) && FindSlot(slots, name, 0).value < look)
            && (k.Some? ==> slots[k.value].sector == Entries(slots)[name])
  {
    InNames(slots, name);
  }

  /** One slot changed: what the map becomes. */
  lemma SameElsewhere(slots: seq<Slot>, k: nat, e: Slot, name: string)
    requires k < |slots| && NamesOnce(slots) && NamesOnce(slots[k := e])
    requires slots[k].inUse ==> slots[k].name != name
    requires e.inUse ==> e.name != name
    ensures name in Entries(slots) <==> name in Entries(slots[k := e])
    ensures name in Entries(slots) ==> Entries(slots)[name] == Entries(slots[k := e])[name]
  {
    var r := slots[k := e];
    InNames(slots, name);
    InNames(r, name);
    var i := FindSlot(slots, name, 0);
    if i.Some? {
      assert r[i.value] == slots[i.value];
      FindIsFound(r, i.value);
    }
  }

  /** The name that entry `k` gives up when it is written. */
  function OldName(slots: seq<Slot>, k: nat): set<string>
    requires k < |slots|
  {
    if slots[k].inUse then {slots[k].name} else {}
  }

  /** dir_add adds a name that is listed already: lookup stopped at a short read before the
      entry, and another entry is written. */
  predicate AddsTwice(slots: seq<Slot>, name: string, mem: Memory) {
    && CanAdd(slots, name, mem)
    && FindSlot(slots, name, 0).Some? && FindSlot(slots, name, 0) != Target(slots, mem.scan)
  }

  /** After a successful dir_add names are unique exactly unless it added a listed name; it
      is then an insertion into the map, which takes the place of the entry that is written
      over, if any. */
  lemma AddIsMap(slots: seq<Slot>, name: string, s: nat, mem: Memory)
    requires SlotsOk(slots) && NamesOnce(slots) && CanAdd(slots, name, mem) && s >= 2 && s !in ListedSet(slots)
    ensures var k := Target(slots, mem.scan).value;
            var after := slots[k := Slot(s, name, true)];
            && SlotsOk(after) && (NamesOnce(after) <==> !AddsTwice(slots, name, mem))
            && (!AddsTwice(slots, name, mem) ==> Entries(after) == (Entries(slots) - OldName(slots, k))[name := s])
  {
    var k := Target(slots, mem.scan).value;
    var e := Slot(s, name, true);
    var after := slots[k := e];
    ListSlot(slots, k, s, name);
    OnceAfter(slots, k, e);
    var p := FindSlot(slots, name, 0);
    if AddsTwice(slots, name, mem) {
      assert after[p.value] == slots[p.value] && after[k] == e;
    } else {
      forall j | 0 <= j < |slots| && j != k && slots[j].inUse ensures slots[j].name != name {
        FindIsFound(slots, j);
      }
      InsertIsMap(slots, k, e);
    }
  }

  lemma OnceAfter(slots: seq<Slot>, k: nat, e: Slot)
    requires NamesOnce(slots) && k < |slots| && e.inUse
    ensures NamesOnce(slots[k := e]) <==> forall j :: 0 <= j < |slots| && j != k && slots[j].inUse ==> slots[j].name != e.name
  {
    var after := slots[k := e];
    if j :| 0 <= j < |slots| && j != k && slots[j].inUse && slots[j].name == e.name {
      assert after[j] == slots[j] && after[k] == e;
    }
  }

  lemma InsertIsMap(slots: seq<Slot>, k: nat, e: Slot)
    requires NamesOnce(slots) && k < |slots| && e.inUse && NamesOnce(slots[k := e])
    ensures Entries(slots[k := e]) == (Entries(slots) - OldName(slots, k))[e.name := e.sector]
  {
    var after := slots[k := e];
    FindIsFound(after, k);
    InNames(after, e.name);
    forall other | other != e.name
      ensures other in Entries(after) <==> other in Entries(slots) && other !in OldName(slots, k)
      ensures other in Entries(after) ==> Entries(after)[other] == Entries(slots)[other]
    {
      if other in OldName(slots, k) {
        GoneName(slots, k, e);
      } else {
        SameElsewhere(slots, k, e, other);
      }
    }
  }

  lemma GoneName(slots: seq<Slot>, k: nat, e: Slot)
    requires NamesOnce(slots) && k < |slots| && slots[k].inUse && (e.inUse ==> e.name != slots[k].name)
    ensures slots[k].name !in Entries(slots[k := e])
  {
    var after := slots[k := e];
    InNames(after, slots[k].name);
    forall j | 0 <= j < |after| && after[j].inUse ensures after[j].name != slots[k].name {
      if j != k {
        assert after[j] == slots[j];
      }
    }
  }

  /** Once every entry can be read dir_add writes a free entry, and adds no name twice. */
  lemma EnoughMemory(slots: seq<Slot>, name: string, mem: Memory)
    requires mem.look >= |slots| && mem.scan >= |slots|
    ensures Lookup(slots, name, mem.look) == FindSlot(slots, name, 0)
    ensures Target(slots, mem.scan) == FreeSlot(slots, 0)
    ensures !AddsTwice(slots, name, mem)
    ensures CanAdd(slots, name, mem) ==> !slots[Target(slots, mem.scan).value].inUse
  {
  }

  /** dir_remove is a removal from the map. */
  lemma RemoveIsMap(slots: seq<Slot>, name: string)
    requires NamesOnce(slots) && FindSlot(slots, name, 0).Some?
    ensures var k := FindSlot(slots, name, 0).value;
            var after := slots[k := slots[k].(inUse := false)];
            NamesOnce(after) && Entries(after) == Entries(slots) - {name}
  {
    var k := FindSlot(slots, name, 0).value;
    var e := slots[k].(inUse := false);
    var after := slots[k := e];
    OnceWithout(slots, k);
    GoneName(slots, k, e);
    forall other | other != name
      ensures other in Entries(after) <==> other in Entries(slots)
      ensures other in Entries(after) ==> Entries(after)[other] == Entries(slots)[other]
    {
      SameElsewhere(slots, k, e, other);
    }
  }

  lemma OnceWithout(slots: seq<Slot>, k: nat)
    requires NamesOnce(slots) && k < |slots|
    ensures NamesOnce(slots[k := slots[k].(inUse := false)])
  {
  }

  // ---------------------------------------------------------------- listing and capacity

  /** The names from slot `from` on, in the order of the slots. */
  function Listing(slots: seq<Slot>, from: nat): seq<string>
    decreases |slots| - from
  {
    if from >= |slots| then []
    else (if slots[from].inUse then [slots[from].name] else []) + Listing(slots, from + 1)
  }

  lemma {:induction false} ListingFrom(slots: seq<Slot>, from: nat)
    requires NamesOnce(slots)
    ensures forall name ::
      name in Listing(slots, from) <==> (exists k :: from <= k < |slots| && slots[k].inUse && slots[k].name == name)
    ensures forall i, j :: 0 <= i < j < |Listing(slots, from)| ==> Listing(slots, from)[i] != Listing(slots, from)[j]
    decreases |slots| - from
  {
    if from < |slots| {
      ListingFrom(slots, from + 1);
      var rest := Listing(slots, from + 1);
      if slots[from].inUse {
        assert Listing(slots, from) == [slots[from].name] + rest;
        assert slots[from].name !in rest;
      } else {
        assert Listing(slots, from) == rest;
      }
    }
  }

  /** Reading the directory from its start lists every name once. */
  lemma ListsEachOnce(slots: seq<Slot>)
    requires NamesOnce(slots)
    ensures forall name :: name in Listing(slots, 0) <==> name in Entries(slots)
    ensures forall i, j :: 0 <= i < j < |Listing(slots, 0)| ==> Listing(slots, 0)[i] != Listing(slots, 0)[j]
    ensures |Listing(slots, 0)| == |Entries(slots)|
  {
    ListingFrom(slots, 0);
    NoRepeatSize(Listing(slots, 0), Entries(slots).Keys);
  }

  lemma {:induction false} NoRepeatSize(names: seq<string>, keys: set<string>)
    requires forall name :: name in names <==> name in keys
    requires forall i, j :: 0 <= i < j < |names| ==> names[i] != names[j]
    ensures |names| == |keys|
  {
    if names != [] {
      var rest := names[1..];
      forall name ensures name in rest <==> name in keys - {names[0]} {
        if name in keys && name != names[0] {
          var i :| 0 <= i < |names| && names[i] == name;
          assert rest[i - 1] == name;
        }
      }
      assert names[0] in keys;
      NoRepeatSize(rest, keys - {names[0]});
    } else {
      assert keys == {};
    }
  }

  lemma {:induction false} ListingFull(slots: seq<Slot>, from: nat)
    requires from <= |slots|
    ensures |Listing(slots, from)| <= |slots| - from
    ensures |Listing(slots, from)| == |slots| - from <==> FreeSlot(slots, from).None?
    decreases |slots| - from
  {
    if from < |slots| {
      ListingFull(slots, from + 1);
    }
  }

  /** A legal name that lookup does not find, an entry to write, and memory to write it. */
  predicate MayAdd(slots: seq<Slot>, name: string, mem: Memory) {
    && 0 < |name| <= NAME_MAX && mem.entry
    && (name in Entries(slots) ==> FindSlot(slots, name, 0).Some? && mem.look <= FindSlot(slots, name, 0).value)
    && (|Entries(slots)| < |slots| || mem.scan < |slots|)
  }

  /** dir_add succeeds exactly if its write gets a buffer, the name is legal, lookup does not
      find it, and there is room or the loop for a free entry stops at a short read. */
  lemma AddSucceeds(slots: seq<Slot>, name: string, mem: Memory)
    requires NamesOnce(slots)
    ensures |Entries(slots)| <= |slots|
    ensures CanAdd(slots, name, mem) <==> MayAdd(slots, name, mem)
  {
    LookupIsMap(slots, name, mem.look);
    ListsEachOnce(slots);
    ListingFull(slots, 0);
  }

  /** An open directory; `pos` counts the entries already read. */
  class Directory {
    const slots: array<Slot>
    var pos: nat

    constructor (slots: array<Slot>)
      ensures this.slots == slots && pos == 0
    {
      this.slots, pos := slots, 0;
    }

    /** dir_readdir; `got` counts the entries it can read before a read comes back short,
        which ends the listing early but keeps the place. */
    method ReadDir(got: nat) returns (name: Option<string>)
      modifies this
      ensures var rest := Listing(slots[..], old(pos));
              if name.Some? then rest != [] && name == Some(rest[0]) && Listing(slots[..], pos) == rest[1..]
              else Listing(slots[..], pos) == rest
      ensures name.None? <==> forall k :: old(pos) <= k < slots.Length && k < old(pos) + got ==> !slots[k].inUse
    {
      var start := pos;
      while pos < slots.Length && pos - start < got
        invariant start <= pos && pos - start <= got
        invariant Listing(slots[..], pos) == Listing(slots[..], start)
        invariant forall k :: start <= k < pos && k < slots.Length ==> !slots[k].inUse
        decreases slots.Length - pos
      {
        var e := slots[pos];
        pos := pos + 1;
        if e.inUse {
          return Some(e.name);
        }
      }
      return None;
    }

    /** With memory, reading until there is no more lists every name of the directory once. */
    method ReadAll() returns (names: seq<string>)
      requires pos == 0 && NamesOnce(slots[..])
      modifies this
      ensures |names| == |Entries(slots[..])|
      ensures forall name :: name in names <==> name in Entries(slots[..])
    {
      names := [];
      ListsEachOnce(slots[..]);
      hide *;
      var more := true;
      while more
        invariant names + Listing(slots[..], pos) == Listing(slots[..], 0)
        invariant !more ==> Listing(slots[..], pos) == []
        decreases more, |Listing(slots[..], pos)|
      {
        ghost var rest := Listing(slots[..], pos);
        ghost var at := pos;
        var next := ReadDir(slots.Length);
        if next.Some? {
          Regrouped(names, rest);
          names := names + [next.value];
        } else {
          NothingListed(slots[..], at);
          more := false;
        }
      }
      NoneLeft(names);
    }
  }

  lemma {:induction false} NothingListed(slots: seq<Slot>, from: nat)
    requires forall k :: from <= k < |slots| ==> !slots[k].inUse
    ensures Listing(slots, from) == []
    decreases |slots| - from
  {
    if from < |slots| {
      NothingListed(slots, from + 1);
    }
  }

  lemma Regrouped<T>(s: seq<T>, t: seq<T>)
    requires t != []
    ensures s + [t[0]] + t[1..] == s + t
  {
  }

  lemma NoneLeft<T>(s: seq<T>)
    ensures s + [] == s
  {
  }
}
