/** The packages of apps/ycsbserver/ops.h and what a history of them leaves
    in the store: INSERT and UPDATE packages write, no other one does. */
module Ops {

  import opened Wrappers

  import opened Bytes
  import opened Keys
  import opened Store

  datatype Pair = Pair(name: bytes, value: bytes)

  datatype Package = Package(op: byte, table: byte, numKvs: byte, key: u64, scanLength: u64, kvPairs: seq<Pair>)

  const INSERT: byte := 1
  const DELETE: byte := 2
  const READ: byte := 3
  const SCAN: byte := 4
  const UPDATE: byte := 5

  predicate Writes(pkg: Package) {
    pkg.op == INSERT || pkg.op == UPDATE
  }

  // ----- the flat store

  function InsertAll(db: seq<Entry>, key: u64, pairs: seq<Pair>): seq<Entry> {
    if |pairs| == 0 then db
    else
      var last := pairs[|pairs| - 1];
      Put(InsertAll(db, key, pairs[..|pairs| - 1]), PackKey(key, last.name, FIELD), last.value)
  }

  function Apply(db: seq<Entry>, pkg: Package): seq<Entry> {
    if Writes(pkg) then InsertAll(db, pkg.key, pkg.kvPairs) else db
  }

  function StoreAfter(history: seq<Package>): seq<Entry> {
    if |history| == 0 then [] else Apply(StoreAfter(history[..|history| - 1]), history[|history| - 1])
  }

  ghost predicate ValidStore(db: seq<Entry>) {
    Sorted(db) && forall i :: 0 <= i < |db| ==> IsPacked(db[i].key)
  }

  lemma {:induction false} InsertAllValid(db: seq<Entry>, key: u64, pairs: seq<Pair>)
    requires ValidStore(db)
    ensures ValidStore(InsertAll(db, key, pairs))
  {
    if |pairs| == 0 {
    } else {
      var last := pairs[|pairs| - 1];
      var before := InsertAll(db, key, pairs[..|pairs| - 1]);
      var k := PackKey(key, last.name, FIELD);
      InsertAllValid(db, key, pairs[..|pairs| - 1]);
      PutSorted(before, k, last.value);
      var r := Put(before, k, last.value);
      forall i | 0 <= i < |r| ensures IsPacked(r[i].key) {
        assert HasKey(r, r[i].key);
        PutKeys(before, k, last.value, r[i].key);
      }
    }
  }

  // Sorted and packed is what every package keeps.
  lemma {:induction false} StoreAfterValid(history: seq<Package>)
    ensures ValidStore(StoreAfter(history))
  {
    if |history| == 0 {
    } else {
      var init, last := history[..|history| - 1], history[|history| - 1];
      StoreAfterValid(init);
      InsertAllValid(StoreAfter(init), last.key, last.kvPairs);
    }
  }

  // ----- the two-level store it stands for

  function LastPair(pairs: seq<Pair>, name: bytes): Option<bytes> {
    if |pairs| == 0 then None
    else
      var last := pairs[|pairs| - 1];
      if last.name == name then Some(last.value) else LastPair(pairs[..|pairs| - 1], name)
  }

  // The value most recently written to field `name` of record `key`.
  function Latest(history: seq<Package>, key: u64, name: bytes): Option<bytes> {
    if |history| == 0 then None
    else
      var last := history[|history| - 1];
      var written := if Writes(last) && last.key == key then LastPair(last.kvPairs, name) else None;
      if written.Some? then written else Latest(history[..|history| - 1], key, name)
  }

  // The same for the names that READ and SCAN use, which carry the "field"
  // that INSERT adds; any other name was never written.
  function LatestNamed(history: seq<Package>, key: u64, name: bytes): Option<bytes> {
    if FIELD <= name then Latest(history, key, name[|FIELD|..]) else None
  }

  lemma PackedName(key: u64, name: bytes, k: u64, f: bytes)
    ensures PackKey(key, name, []) == PackKey(k, f, FIELD) <==> key == k && name == FIELD + f
  {
    PackedParts(k, f, FIELD);
    PackKeyInjective(key, name, k, FIELD + f, []);
  }

  lemma {:induction false} GetInsertAll(db: seq<Entry>, k: u64, pairs: seq<Pair>, key: u64, name: bytes)
    ensures Get(InsertAll(db, k, pairs), PackKey(key, name, [])) ==
            var w := if k == key && FIELD <= name then LastPair(pairs, name[|FIELD|..]) else None;
            if w.Some? then w else Get(db, PackKey(key, name, []))
  {
    if |pairs| == 0 {
    } else {
      var last := pairs[|pairs| - 1];
      var before := InsertAll(db, k, pairs[..|pairs| - 1]);
      GetInsertAll(db, k, pairs[..|pairs| - 1], key, name);
      GetPut(before, PackKey(k, last.name, FIELD), last.value, PackKey(key, name, []));
      PackedName(key, name, k, last.name);
      assert FIELD <= name ==> name == FIELD + name[|FIELD|..];
    }
  }

  // No later pair has the same name.
  predicate LastOfName(pairs: seq<Pair>, i: nat)
    requires i < |pairs|
  {
    forall j :: i < j < |pairs| ==> pairs[j].name != pairs[i].name
  }

  // The store key k belongs to none of the pairs.
  predicate Untouched(key: u64, pairs: seq<Pair>, k: bytes) {
    forall i :: 0 <= i < |pairs| ==> k != PackKey(key, pairs[i].name, FIELD)
  }

  // From db to db', every pair that no later one overwrites is written under
  // record `key`, and nothing else changes.
  ghost predicate AllWritten(db: seq<Entry>, db': seq<Entry>, key: u64, pairs: seq<Pair>) {
    && (forall i :: 0 <= i < |pairs| && LastOfName(pairs, i) ==>
          Get(db', PackKey(key, pairs[i].name, FIELD)) == Some(pairs[i].value))
    && (forall k: bytes :: Untouched(key, pairs, k) ==> Get(db', k) == Get(db, k))
  }

  lemma {:induction false} InsertAllWrites(db: seq<Entry>, key: u64, pairs: seq<Pair>)
    ensures AllWritten(db, InsertAll(db, key, pairs), key, pairs)
  {
    if |pairs| == 0 {
    } else {
      var n := |pairs| - 1;
      InsertAllWrites(db, key, pairs[..n]);
      var before := InsertAll(db, key, pairs[..n]);
      hide AllWritten, Get, Put;
      assert InsertAll(db, key, pairs) == Put(before, PackKey(key, pairs[n].name, FIELD), pairs[n].value);
      OneMoreWritten(db, before, key, pairs);
    }
  }

  lemma OneMoreWritten(db: seq<Entry>, before: seq<Entry>, key: u64, pairs: seq<Pair>)
    requires pairs != [] && AllWritten(db, before, key, pairs[..|pairs| - 1])
    ensures var last := pairs[|pairs| - 1];
            AllWritten(db, Put(before, PackKey(key, last.name, FIELD), last.value), key, pairs)
  {
    var n := |pairs| - 1;
    var init, last := pairs[..n], pairs[n];
    var written := PackKey(key, last.name, FIELD);
    var after := Put(before, written, last.value);
    hide PackKey, Get, Put;
    forall i | 0 <= i < |pairs| && LastOfName(pairs, i)
      ensures Get(after, PackKey(key, pairs[i].name, FIELD)) == Some(pairs[i].value)
    {
      GetPut(before, written, last.value, PackKey(key, pairs[i].name, FIELD));
      if i < n {
        PackKeyInjective(key, pairs[i].name, key, last.name, FIELD);
        assert init[i] == pairs[i] && LastOfName(init, i);
      }
    }
    forall k: bytes | Untouched(key, pairs, k) ensures Get(after, k) == Get(db, k) {
      GetPut(before, written, last.value, k);
      assert Untouched(key, init, k);
    }
  }

  // The flat store refines the two-level one: looking up the packed key gives
  // the latest write of that record and field, and nothing if there was none.
  lemma {:induction false} StoreRefines(history: seq<Package>, key: u64, name: bytes)
    ensures Get(StoreAfter(history), PackKey(key, name, [])) == LatestNamed(history, key, name)
  {
    if |history| == 0 {
    } else {
      var init, last := history[..|history| - 1], history[|history| - 1];
      StoreRefines(init, key, name);
      if Writes(last) {
        GetInsertAll(StoreAfter(init), last.key, last.kvPairs, key, name);
      }
    }
  }

  // ----- reads

  // The named fields that have a value, in the order they were asked for.
  function Found(history: seq<Package>, key: u64, asked: seq<Pair>): seq<Pair> {
    if |asked| == 0 then []
    else
      var name := asked[|asked| - 1].name;
      var value := LatestNamed(history, key, name);
      Found(history, key, asked[..|asked| - 1]) + if value.Some? then [Pair(name, value.value)] else []
  }

  // idx lists, in ascending order, the places at which `asked` names a field
  // that has a value; found are these names with their values.
  ghost predicate FoundAt(history: seq<Package>, key: u64, asked: seq<Pair>, found: seq<Pair>, idx: seq<nat>) {
    && |idx| == |found|
    && (forall i, j :: 0 <= i < j < |idx| ==> idx[i] < idx[j])
    && (forall j :: 0 <= j < |idx| ==>
          && idx[j] < |asked| && found[j].name == asked[idx[j]].name
          && LatestNamed(history, key, found[j].name) == Some(found[j].value))
    && (forall i :: 0 <= i < |asked| ==> (i in idx <==> LatestNamed(history, key, asked[i].name).Some?))
  }

  lemma {:induction false} FoundExactly(history: seq<Package>, key: u64, asked: seq<Pair>) returns (idx: seq<nat>)
    ensures FoundAt(history, key, asked, Found(history, key, asked), idx)
  {
    if |asked| == 0 {
      idx := [];
    } else {
      var n := |asked| - 1;
      var init := FoundExactly(history, key, asked[..n]);
      idx := init + if LatestNamed(history, key, asked[n].name).Some? then [n] else [];
      hide FoundAt, LatestNamed;
      FoundNext(history, key, asked, Found(history, key, asked[..n]), init);
    }
  }

  lemma FoundNext(history: seq<Package>, key: u64, asked: seq<Pair>, found: seq<Pair>, idx: seq<nat>)
    requires asked != [] && FoundAt(history, key, asked[..|asked| - 1], found, idx)
    ensures var n := |asked| - 1;
            match LatestNamed(history, key, asked[n].name)
            case Some(value) => FoundAt(history, key, asked, found + [Pair(asked[n].name, value)], idx + [n])
            case None => FoundAt(history, key, asked, found, idx)
  {
    hide LatestNamed;
    var n := |asked| - 1;
    assert forall i :: 0 <= i < n ==> asked[..n][i] == asked[i];
    assert (idx + [n])[|idx|] == n;
    assert forall i :: i in idx + [n] <==> i in idx || i == n;
  }

  // Names of the stored fields of one record, in store order.
  function FieldsOf(db: seq<Entry>, key: u64): seq<bytes> {
    if |db| == 0 then []
    else
      var last := db[|db| - 1];
      FieldsOf(db[..|db| - 1], key) + if KeyNumber(last.key) == key then [FieldName(last.key)] else []
  }

  // A read of all fields: what `is >> field` makes of "/" and the name.
  function WholeRead(db: seq<Entry>, key: u64): (rs: seq<Pair>)
    ensures |rs| == |FieldsOf(db, key)|
  {
    if |db| == 0 then []
    else
      var last := db[|db| - 1];
      WholeRead(db[..|db| - 1], key) +
      if KeyNumber(last.key) == key then [Pair(Word([SLASH] + FieldName(last.key)), last.value)] else []
  }

  lemma PackedEntry(s: bytes)
    requires IsPacked(s)
    ensures KeyNumber(s) < TWO_TO_THE_64 && FIELD <= FieldName(s)
    ensures s == PackKey(KeyNumber(s), FieldName(s), [])
  {
    var k: u64, f: bytes :| s == PackKey(k, f, FIELD);
    PackedParts(k, f, FIELD);
  }

  // The entry that the i-th listed field stands for.
  lemma {:induction false} FieldStands(db: seq<Entry>, key: u64, i: nat) returns (j: nat)
    requires ValidStore(db) && i < |FieldsOf(db, key)|
    ensures j < |db|
    ensures db[j] == Entry(PackKey(key, FieldsOf(db, key)[i], []), WholeRead(db, key)[i].value)
    ensures WholeRead(db, key)[i].name == Word([SLASH] + FieldsOf(db, key)[i])
  {
    var n := |db| - 1;
    var init := db[..n];
    if i < |FieldsOf(init, key)| {
      j := FieldStands(init, key, i);
    } else {
      PackedEntry(db[n].key);
      j := n;
    }
  }

  lemma {:induction false} FieldsAscend(db: seq<Entry>, key: u64, i: nat, j: nat)
    requires ValidStore(db) && i < j < |FieldsOf(db, key)|
    ensures ByteOrder.Less(FieldsOf(db, key)[i], FieldsOf(db, key)[j])
  {
    var n := |db| - 1;
    var init := db[..n];
    if j < |FieldsOf(init, key)| {
      FieldsAscend(init, key, i, j);
    } else {
      var e := FieldStands(init, key, i);
      PackedEntry(db[n].key);
      PackedOrder(key, FieldsOf(init, key)[i], key, FieldName(db[n].key), []);
    }
  }

  lemma {:induction false} FieldsComplete(db: seq<Entry>, key: u64, name: bytes)
    requires HasKey(db, PackKey(key, name, []))
    ensures name in FieldsOf(db, key)
  {
    var n := |db| - 1;
    var i :| 0 <= i < |db| && db[i].key == PackKey(key, name, []);
    if i < n {
      assert db[..n][i].key == PackKey(key, name, []);
      FieldsComplete(db[..n], key, name);
    } else {
      PackedParts(key, name, []);
      var fs := FieldsOf(db, key);
      assert fs[|fs| - 1] == name;
    }
  }

  // A read of all fields agrees with the reads by name: it lists exactly the
  // fields that have a value, each once and in store order, with that value;
  // what it calls them is "/" and the name, cut at the first white space.
  lemma WholeReadAgrees(history: seq<Package>, key: u64)
    ensures var fs, rs := FieldsOf(StoreAfter(history), key), WholeRead(StoreAfter(history), key);
            && |fs| == |rs|
            && (forall i :: 0 <= i < |fs| ==>
                  && LatestNamed(history, key, fs[i]) == Some(rs[i].value)
                  && rs[i].name == Word([SLASH] + fs[i]))
            && (forall i, j :: 0 <= i < j < |fs| ==> ByteOrder.Less(fs[i], fs[j]))
            && (forall name :: LatestNamed(history, key, name).Some? <==> name in fs)
  {
    var db := StoreAfter(history);
    var fs, rs := FieldsOf(db, key), WholeRead(db, key);
    StoreAfterValid(history);
    forall i | 0 <= i < |fs|
      ensures LatestNamed(history, key, fs[i]) == Some(rs[i].value)
      ensures rs[i].name == Word([SLASH] + fs[i])
    {
      var j := FieldStands(db, key, i);
      GetEntry(db, j);
      StoreRefines(history, key, fs[i]);
    }
    forall i, j | 0 <= i < j < |fs| ensures ByteOrder.Less(fs[i], fs[j]) {
      FieldsAscend(db, key, i, j);
    }
    forall name | LatestNamed(history, key, name).Some? ensures name in fs {
      StoreRefines(history, key, name);
      GetSome(db, PackKey(key, name, []));
      FieldsComplete(db, key, name);
    }
  }

  // The whole-record read cuts a name at its first white space; so it spells
  // it out in full exactly when there is none.
  lemma WholeReadNames(name: bytes) returns (i: nat)
    ensures i <= |name| && NoSpace(name[..i]) && (i < |name| ==> IsSpace(name[i]))
    ensures Word([SLASH] + name) == [SLASH] + name[..i]
    ensures Word([SLASH] + name) == [SLASH] + name <==> NoSpace(name)
  {
    var s := [SLASH] + name;
    WordRunStops(s);
    i := WordRun(s) - 1;
    assert s[0..] == s && s[..i + 1] == [SLASH] + name[..i];
    assert forall j :: 0 <= j < |name| ==> s[j + 1] == name[j];
    if NoSpace(name) {
      assert name[..i] == name;
    } else {
      assert |[SLASH] + name[..i]| < |s|;
    }
  }
}
