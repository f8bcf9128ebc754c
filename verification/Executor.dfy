/** The LevelDBExecutor of apps/ycsbserver/ops.cc. */
module Executor {

  import opened Wrappers

  import opened Bytes
  import opened Keys
  import opened Store
  import opened Ops
  import opened Scan

  function Size(ps: seq<Pair>): nat {
    if |ps| == 0 then 0 else Size(ps[..|ps| - 1]) + |ps[|ps| - 1].name| + |ps[|ps| - 1].value|
  }

  // Size adds up the lengths of all names and values.
  lemma {:induction false} SizeAdds(ps: seq<Pair>, qs: seq<Pair>)
    ensures Size(ps + qs) == Size(ps) + Size(qs)
    ensures |ps| == 1 ==> Size(ps) == |ps[0].name| + |ps[0].value|
  {
    if |ps| == 1 {
      assert ps[..0] == [];
    }
    if |qs| == 0 {
      assert ps + qs == ps;
    } else {
      var n := |qs| - 1;
      SizeAdds(ps, qs[..n]);
      assert (ps + qs)[..|ps| + n] == ps + qs[..n];
    }
  }

  function Answer(history: seq<Package>, pkg: Package): seq<Pair> {
    if pkg.kvPairs == [] then WholeRead(StoreAfter(history), pkg.key)
    else Found(history, pkg.key, pkg.kvPairs)
  }

  // The size of the response to a package that follows `history`, as size_t.
  function Response(history: seq<Package>, pkg: Package): Result<u64, Error> {
    if Writes(pkg) || pkg.op == DELETE then Ok(4)
    else if pkg.op == READ then Ok(Size(Answer(history, pkg)) % TWO_TO_THE_64)
    else if pkg.op == SCAN then
      match ScanResult(StoreAfter(history), pkg)
      case Ok(ps) => Ok(Size(ps) % TWO_TO_THE_64)
      case Err(e) => Err(e)
    else Ok(0)
  }

  // A READ answers with the size of the whole record, or of the fields found.
  lemma ReadAnswered(history: seq<Package>, pkg: Package) returns (vals: seq<Pair>)
    requires pkg.op == READ
    ensures Response(history, pkg) == Ok(Size(vals) % TWO_TO_THE_64)
    ensures pkg.kvPairs == [] ==> vals == WholeRead(StoreAfter(history), pkg.key)
    ensures pkg.kvPairs != [] ==> exists idx :: FoundAt(history, pkg.key, pkg.kvPairs, vals, idx)
  {
    vals := Answer(history, pkg);
    if pkg.kvPairs != [] {
      var idx := FoundExactly(history, pkg.key, pkg.kvPairs);
    }
  }

  // A SCAN answers with the size of what it returns, or throws.
  lemma ScanAnswered(history: seq<Package>, pkg: Package) returns (r: Result<seq<Pair>, Error>)
    requires pkg.op == SCAN
    ensures Returned(StoreAfter(history), pkg, r)
    ensures r.Ok? ==> Response(history, pkg) == Ok(Size(r.value) % TWO_TO_THE_64)
    ensures r.Err? ==> Response(history, pkg) == Err(r.error)
  {
    r := ScanResult(StoreAfter(history), pkg);
    StoreAfterValid(history);
    ScanExactly(StoreAfter(history), pkg);
  }

  class LevelDBExecutor {
    var db: seq<Entry>
    // every package ever executed on this database
    ghost var history: seq<Package>

    ghost predicate Valid()
      reads this
    {
      db == StoreAfter(history)
    }

    constructor ()
      ensures Valid() && history == []
    {
      db, history := [], [];
    }

    method ExecInsert(pkg: Package)
      modifies `db
      ensures db == InsertAll(old(db), pkg.key, pkg.kvPairs)
    {
      var i := 0;
      while i < |pkg.kvPairs|
        invariant i <= |pkg.kvPairs|
        invariant db == InsertAll(old(db), pkg.key, pkg.kvPairs[..i])
      {
        var key := PackKey(pkg.key, pkg.kvPairs[i].name, FIELD);
        db := Put(db, key, pkg.kvPairs[i].value);
        assert pkg.kvPairs[..i + 1][..i] == pkg.kvPairs[..i];
        i := i + 1;
      }
      assert pkg.kvPairs[..i] == pkg.kvPairs;
    }

    method ExecRead(pkg: Package) returns (res: seq<Pair>)
      requires Valid()
      ensures res == Answer(history, pkg)
    {
      if pkg.kvPairs == [] {
        res := ReadRecord(pkg);
      } else {
        res := ReadFields(pkg);
      }
    }

    // The branch of exec_read that iterates over the whole database.
    method ReadRecord(pkg: Package) returns (res: seq<Pair>)
      requires Valid()
      ensures res == WholeRead(db, pkg.key)
    {
      StoreAfterValid(history);
      hide StoreAfter, ExtractKey, SpaceRun, Word, KeyNumber, FieldName, IsPacked;
      res := [];
      var it := 0;
      while it < |db|
        invariant it <= |db|
        invariant res == WholeRead(db[..it], pkg.key)
      {
        var text := db[it].key;
        ParseEntry(text);
        var stream := ExtractKey(text);
        if stream.value == pkg.key {
          var field := if stream.good then Word(text[stream.pos..]) else [];
          res := res + [Pair(field, db[it].value)];
        }
        assert db[..it + 1][..it] == db[..it];
        it := it + 1;
      }
      assert db[..it] == db;
    }

    // The branch of exec_read that looks up each name.
    method ReadFields(pkg: Package) returns (res: seq<Pair>)
      requires Valid()
      ensures res == Found(history, pkg.key, pkg.kvPairs)
    {
      res := [];
      var i := 0;
      while i < |pkg.kvPairs|
        invariant i <= |pkg.kvPairs|
        invariant res == Found(history, pkg.key, pkg.kvPairs[..i])
      {
        var name := pkg.kvPairs[i].name;
        StoreRefines(history, pkg.key, name);
        var s := Get(db, PackKey(pkg.key, name, []));
        if s.Some? {
          res := res + [Pair(name, s.value)];
        }
        assert pkg.kvPairs[..i + 1][..i] == pkg.kvPairs[..i];
        i := i + 1;
      }
      assert pkg.kvPairs[..i] == pkg.kvPairs;
    }

    method ExecScan(pkg: Package) returns (r: Result<seq<Pair>, Error>)
      requires Valid()
      ensures r == ScanResult(db, pkg)
      ensures Returned(db, pkg, r)
    {
      StoreAfterValid(history);
      ScanExactly(db, pkg);
      hide ScanAt, ScanResult, Returned, StoreAfter, IsPacked, UnpackKey;
      var res: seq<Pair>, rem: u64, lastKey: u64 := [], pkg.scanLength, 0;
      var it := 0;
      if |pkg.kvPairs| == 1 {
        it := SeekIndex(db, PackKey(pkg.key, pkg.kvPairs[0].name, []));
      }
      ghost var es, n := db[it..], 0;
      ScanBegins(db, pkg);
      while rem > 0 && it < |db|
        invariant n <= |es| && it == |db| - |es| + n && es == db[ScanStart(db, pkg)..]
        invariant ScanAt(pkg, es, n, res, rem, lastKey)
      {
        assert es[n] == db[it];
        UnpackEntry(db[it].key);
        ScanStep(pkg, es, n, res, rem, lastKey);
        var unpacked := UnpackKey(db[it].key);
        if unpacked.Err? {
          ScanThrows(db, pkg, es, n, res, rem, lastKey);
          return Err(unpacked.error);
        }
        var (key, field) := unpacked.value;
        if key >= pkg.key {
          var take := TakeField(pkg, field);
          if take {
            res := res + [Pair(field, db[it].value)];
            if lastKey != 0 && lastKey != key {
              rem := rem - 1;
            }
          }
          lastKey := key;
        }
        it, n := it + 1, n + 1;
      }
      ScanEnds(db, pkg, es, n, res, rem, lastKey);
      return Ok(res);
    }

    method Execute(pkg: Package) returns (r: Result<u64, Error>)
      requires Valid()
      modifies this
      ensures Valid() && history == old(history) + [pkg]
      ensures r == Response(old(history), pkg)
      ensures pkg.op == INSERT || pkg.op == UPDATE ==>
                r == Ok(4) && AllWritten(old(db), db, pkg.key, pkg.kvPairs)
      ensures pkg.op != INSERT && pkg.op != UPDATE ==> db == old(db)
      ensures pkg.op == DELETE ==> r == Ok(4)
      ensures pkg.op !in {INSERT, UPDATE, READ, SCAN, DELETE} ==> r == Ok(0)
    {
      hide AllWritten;
      InsertAllWrites(db, pkg.key, pkg.kvPairs);
      hide StoreAfter, ScanResult, WholeRead, Found, InsertAll, Size;
      StoreAfterOne(history, pkg);
      r := Ok(0);
      if pkg.op == INSERT {
        ExecInsert(pkg);
        r := Ok(4);
      } else if pkg.op == UPDATE {
        ExecInsert(pkg);
        r := Ok(4);
      } else if pkg.op == READ {
        var vals := ExecRead(pkg);
        var bytes := TotalSize(vals);
        r := Ok(bytes);
      } else if pkg.op == SCAN {
        var vals := ExecScan(pkg);
        if vals.Ok? {
          var bytes := TotalSize(vals.value);
          r := Ok(bytes);
        } else {
          r := Err(vals.error);
        }
      } else if pkg.op == DELETE {
        r := Ok(4);
      }
      history := history + [pkg];
    }
  }

  lemma StoreAfterOne(history: seq<Package>, pkg: Package)
    ensures StoreAfter(history + [pkg]) == Apply(StoreAfter(history), pkg)
  {
    assert (history + [pkg])[..|history|] == history;
  }

  lemma ParseEntry(text: bytes)
    requires IsPacked(text)
    ensures SpaceRun(text) < |text|
    ensures ExtractKey(text).good && ExtractKey(text).value == KeyNumber(text)
    ensures text[ExtractKey(text).pos..] == [SLASH] + FieldName(text)
  {
    var k: u64, f: bytes :| text == PackKey(k, f, FIELD);
    hide *;
    ParsePacked(k, f);
  }

  lemma ParsePacked(k: u64, f: bytes)
    ensures var text := PackKey(k, f, FIELD);
            && SpaceRun(text) < |text|
            && ExtractKey(text).good && ExtractKey(text).value == KeyNumber(text)
            && text[ExtractKey(text).pos..] == [SLASH] + FieldName(text)
  {
    hide PackKey, ExtractKey, SpaceRun, KeyNumber, FieldName;
    ExtractPacked(k, f, FIELD);
    PackedParts(k, f, FIELD);
  }

  lemma UnpackEntry(text: bytes)
    requires IsPacked(text)
    ensures UnpackKey(text) == if KeyNumber(text) < TWO_TO_THE_63 then Ok((KeyNumber(text), FieldName(text)))
                               else Err(OutOfRange)
  {
    var k: u64, f: bytes :| text == PackKey(k, f, FIELD);
    UnpackPacked(k, f, FIELD);
    PackedParts(k, f, FIELD);
  }

  // The state of exec_scan's loop after n entries.
  ghost predicate ScanAt(pkg: Package, es: seq<Entry>, n: nat, res: seq<Pair>, rem: nat, lastKey: nat) {
    && n <= |es|
    && Readable(es[..n])
    && res == Taken(pkg, es[..n])
    && lastKey == LastRecord(pkg, es[..n])
    && rem + Charges(pkg, es[..n]) == pkg.scanLength
    && (forall b :: 0 <= b < n ==> Charges(pkg, es[..b]) < pkg.scanLength)
  }

  lemma ScanBegins(db: seq<Entry>, pkg: Package)
    ensures ScanAt(pkg, db[ScanStart(db, pkg)..], 0, [], pkg.scanLength, 0)
  {
  }

  lemma ScanStep(pkg: Package, es: seq<Entry>, n: nat, res: seq<Pair>, rem: nat, lastKey: nat)
    requires ScanAt(pkg, es, n, res, rem, lastKey) && rem > 0 && n < |es|
    ensures var e := es[n];
            var k := KeyNumber(e.key);
            var paid := lastKey != 0 && lastKey != k;
            k < TWO_TO_THE_63 ==>
              if k < pkg.key then ScanAt(pkg, es, n + 1, res, rem, lastKey)
              else if Wanted(pkg, FieldName(e.key)) then
                ScanAt(pkg, es, n + 1, res + [Pair(FieldName(e.key), e.value)], if paid then rem - 1 else rem, k)
              else ScanAt(pkg, es, n + 1, res, rem, k)
  {
    var next := es[..n + 1];
    assert next[..n] == es[..n] && next[n] == es[n];
    hide Wanted, KeyNumber, FieldName;
    var k := KeyNumber(es[n].key);
    if k < TWO_TO_THE_63 {
      forall i | 0 <= i < n + 1 ensures KeyNumber(next[i].key) < TWO_TO_THE_63 {
        assert i < n ==> next[i] == es[..n][i];
      }
      assert Readable(next);
    }
  }

  lemma ScanThrows(db: seq<Entry>, pkg: Package, es: seq<Entry>, n: nat, res: seq<Pair>, rem: nat, lastKey: nat)
    requires es == db[ScanStart(db, pkg)..]
    requires ScanAt(pkg, es, n, res, rem, lastKey) && rem > 0 && n < |es|
    requires KeyNumber(es[n].key) >= TWO_TO_THE_63
    ensures ScanResult(db, pkg) == Err(OutOfRange)
  {
    hide KeyNumber, Taken, Charges;
    var c := Cut(pkg, es, pkg.scanLength);
    assert c > n;
    assert es[..c][n] == es[n];
  }

  lemma ScanEnds(db: seq<Entry>, pkg: Package, es: seq<Entry>, n: nat, res: seq<Pair>, rem: nat, lastKey: nat)
    requires es == db[ScanStart(db, pkg)..]
    requires ScanAt(pkg, es, n, res, rem, lastKey) && (rem == 0 || n == |es|)
    ensures ScanResult(db, pkg) == Ok(res)
  {
    hide KeyNumber, Taken, Charges;
    assert Cut(pkg, es, pkg.scanLength) == n;
  }

  method TakeField(pkg: Package, field: bytes) returns (take: bool)
    ensures take == Wanted(pkg, field)
    ensures take <==> pkg.kvPairs == [] || exists p :: p in pkg.kvPairs && p.name == field
  {
    if pkg.kvPairs == [] {
      return true;
    }
    var i := 0;
    while i < |pkg.kvPairs|
      invariant i <= |pkg.kvPairs|
      invariant forall j :: 0 <= j < i ==> pkg.kvPairs[j].name != field
    {
      if pkg.kvPairs[i].name == field {
        return true;
      }
      i := i + 1;
    }
    return false;
  }

  method TotalSize(vals: seq<Pair>) returns (bytes: u64)
    ensures bytes == Size(vals) % TWO_TO_THE_64
  {
    bytes := 0;
    var i := 0;
    while i < |vals|
      invariant i <= |vals|
      invariant bytes == Size(vals[..i]) % TWO_TO_THE_64
    {
      ModAdd(Size(vals[..i]), |vals[i].name| + |vals[i].value|, TWO_TO_THE_64);
      bytes := (bytes + (|vals[i].name| + |vals[i].value|)) % TWO_TO_THE_64;
      assert vals[..i + 1][..i] == vals[..i];
      i := i + 1;
    }
    assert vals[..i] == vals;
  }
}
