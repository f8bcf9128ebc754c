/** LevelDB as the executor sees it: entries in ascending byte order of their
    keys, which is the order an iterator visits them in. */
module Store {

  import opened Wrappers

  import opened Bytes
  import opened ByteOrder

  datatype Entry = Entry(key: bytes, value: bytes)

  predicate Sorted(db: seq<Entry>) {
    forall i, j :: 0 <= i < j < |db| ==> Less(db[i].key, db[j].key)
  }

  function Put(db: seq<Entry>, key: bytes, value: bytes): (r: seq<Entry>)
    ensures |r| > 0
  {
    if db == [] || Less(key, db[0].key) then [Entry(key, value)] + db
    else if db[0].key == key then [Entry(key, value)] + db[1..]
    else [db[0]] + Put(db[1..], key, value)
  }

  function Get(db: seq<Entry>, key: bytes): Option<bytes> {
    if db == [] then None
    else if db[0].key == key then Some(db[0].value)
    else Get(db[1..], key)
  }

  // Iterator::Seek: the first entry at or after the key.
  function SeekIndex(db: seq<Entry>, key: bytes): (i: nat)
    ensures i <= |db|
    ensures forall j :: 0 <= j < i ==> Less(db[j].key, key)
    ensures i < |db| ==> !Less(db[i].key, key)
  {
    if db == [] || !Less(db[0].key, key) then 0
    else
      var i := 1 + SeekIndex(db[1..], key);
      assert forall j :: 1 <= j < i ==> db[j] == db[1..][j - 1];
      i
  }

  ghost predicate HasKey(db: seq<Entry>, key: bytes) {
    exists i :: 0 <= i < |db| && db[i].key == key
  }

  lemma {:induction false} PutKeys(db: seq<Entry>, key: bytes, value: bytes, k: bytes)
    ensures HasKey(Put(db, key, value), k) <==> HasKey(db, k) || k == key
  {
    var r := Put(db, key, value);
    if db == [] || Less(key, db[0].key) {
      assert r[0].key == key && r[1..] == db;
      HasKeyFront(r, k);
    } else {
      HasKeyFront(r, k);
      HasKeyFront(db, k);
      if db[0].key == key {
        assert r[1..] == db[1..];
      } else {
        assert r[1..] == Put(db[1..], key, value);
        PutKeys(db[1..], key, value, k);
      }
    }
  }

  lemma HasKeyFront(db: seq<Entry>, k: bytes)
    requires db != []
    ensures HasKey(db, k) <==> db[0].key == k || HasKey(db[1..], k)
  {
    if i :| 0 <= i < |db| && db[i].key == k {
      assert i > 0 ==> db[1..][i - 1].key == k;
    }
    if i :| 0 <= i < |db[1..]| && db[1..][i].key == k {
      assert db[i + 1].key == k;
    }
  }

  lemma SortedFront(e: Entry, db: seq<Entry>)
    requires Sorted(db) && forall k :: HasKey(db, k) ==> Less(e.key, k)
    ensures Sorted([e] + db)
  {
    var r := [e] + db;
    forall i, j | 0 <= i < j < |r| ensures Less(r[i].key, r[j].key) {
      assert r[j] == db[j - 1];
      assert HasKey(db, r[j].key);
    }
  }

  lemma {:induction false} PutSorted(db: seq<Entry>, key: bytes, value: bytes)
    requires Sorted(db)
    ensures Sorted(Put(db, key, value))
  {
    if db == [] {
    } else if Less(key, db[0].key) {
      forall k | HasKey(db, k) ensures Less(key, k) {
        var i :| 0 <= i < |db| && db[i].key == k;
        if i > 0 { LessTransitive(key, db[0].key, k); }
      }
      SortedFront(Entry(key, value), db);
    } else if db[0].key == key {
      forall k | HasKey(db[1..], k) ensures Less(key, k) {
      }
      SortedFront(Entry(key, value), db[1..]);
    } else {
      LessTotal(key, db[0].key);
      PutSorted(db[1..], key, value);
      forall k | HasKey(Put(db[1..], key, value), k) ensures Less(db[0].key, k) {
        PutKeys(db[1..], key, value, k);
      }
      SortedFront(db[0], Put(db[1..], key, value));
    }
  }

  lemma {:induction false} GetPut(db: seq<Entry>, key: bytes, value: bytes, k: bytes)
    ensures Get(Put(db, key, value), k) == if k == key then Some(value) else Get(db, k)
  {
    var r := Put(db, key, value);
    if db == [] || Less(key, db[0].key) {
      assert r[1..] == db;
    } else if db[0].key == key {
      assert r[1..] == db[1..];
    } else {
      assert r[1..] == Put(db[1..], key, value);
      GetPut(db[1..], key, value, k);
    }
  }

  lemma {:induction false} GetEntry(db: seq<Entry>, i: nat)
    requires Sorted(db) && i < |db|
    ensures Get(db, db[i].key) == Some(db[i].value)
  {
    if i == 0 {
    } else {
      LessAsymmetric(db[0].key, db[i].key);
      GetEntry(db[1..], i - 1);
    }
  }

  lemma {:induction false} GetSome(db: seq<Entry>, k: bytes)
    ensures Get(db, k).Some? <==> HasKey(db, k)
  {
    if db == [] {
    } else {
      HasKeyFront(db, k);
      GetSome(db[1..], k);
    }
  }

  lemma {:induction false} PutLast(db: seq<Entry>, key: bytes, value: bytes)
    requires forall i :: 0 <= i < |db| ==> Less(db[i].key, key)
    ensures Put(db, key, value) == db + [Entry(key, value)]
  {
    if db == [] {
    } else {
      LessAsymmetric(db[0].key, key);
      PutLast(db[1..], key, value);
      assert db == [db[0]] + db[1..];
    }
  }
}
