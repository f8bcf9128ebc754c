/** What exec_scan of apps/ycsbserver/ops.cc returns, and how it relates to
    the numeric range and the record budget that were asked for. */
module Scan {

  import opened Wrappers

  import opened Bytes
  import opened ByteOrder
  import opened Decimal
  import opened Keys
  import opened Store
  import opened Ops

  predicate Wanted(pkg: Package, name: bytes) {
    pkg.kvPairs == [] || exists i :: 0 <= i < |pkg.kvPairs| && pkg.kvPairs[i].name == name
  }

  // The filter lets through the names it lists, or all if it lists none.
  lemma WantedNames(pkg: Package, name: bytes)
    ensures Wanted(pkg, name) <==> pkg.kvPairs == [] || exists p :: p in pkg.kvPairs && p.name == name
  {
    if p :| p in pkg.kvPairs && p.name == name {
      var i :| 0 <= i < |pkg.kvPairs| && pkg.kvPairs[i] == p;
    }
  }

  predicate InRange(pkg: Package, e: Entry) {
    KeyNumber(e.key) >= pkg.key
  }

  predicate Takes(pkg: Package, e: Entry) {
    InRange(pkg, e) && Wanted(pkg, FieldName(e.key))
  }

  // Everything that qualifies, in store order.
  function Taken(pkg: Package, es: seq<Entry>): seq<Pair> {
    if |es| == 0 then []
    else
      var e := es[|es| - 1];
      Taken(pkg, es[..|es| - 1]) + if Takes(pkg, e) then [Pair(FieldName(e.key), e.value)] else []
  }

  // The record of the last entry in range; 0 also stands for "none yet".
  function LastRecord(pkg: Package, es: seq<Entry>): nat {
    if |es| == 0 then 0
    else if InRange(pkg, es[|es| - 1]) then KeyNumber(es[|es| - 1].key)
    else LastRecord(pkg, es[..|es| - 1])
  }

  // Does the entry after `es` use up one unit of the budget?
  predicate Charged(pkg: Package, es: seq<Entry>, e: Entry) {
    Takes(pkg, e) && LastRecord(pkg, es) != 0 && LastRecord(pkg, es) != KeyNumber(e.key)
  }

  function Charges(pkg: Package, es: seq<Entry>): nat {
    if |es| == 0 then 0
    else
      var init := es[..|es| - 1];
      Charges(pkg, init) + if Charged(pkg, init, es[|es| - 1]) then 1 else 0
  }

  // Length of the shortest prefix that spends a budget of n, or of the whole.
  function Cut(pkg: Package, es: seq<Entry>, n: nat, from: nat := 0): (c: nat)
    requires from <= |es|
    ensures from <= c <= |es|
    ensures forall b :: from <= b < c ==> Charges(pkg, es[..b]) < n
    ensures c < |es| ==> Charges(pkg, es[..c]) >= n
    decreases |es| - from
  {
    if from == |es| || Charges(pkg, es[..from]) >= n then from else Cut(pkg, es, n, from + 1)
  }

  function ScanStart(db: seq<Entry>, pkg: Package): (i: nat)
    ensures i <= |db|
  {
    if |pkg.kvPairs| == 1 then SeekIndex(db, PackKey(pkg.key, pkg.kvPairs[0].name, [])) else 0
  }

  // std::stoll reads the record key of every one of these entries.
  predicate Readable(es: seq<Entry>) {
    forall i :: 0 <= i < |es| ==> KeyNumber(es[i].key) < TWO_TO_THE_63
  }

  // A scan visits entries until the budget is spent; it throws if one of them
  // has a record key above 2^63 - 1.
  function Visit(pkg: Package, es: seq<Entry>): Result<seq<Pair>, Error> {
    var visited := es[..Cut(pkg, es, pkg.scanLength)];
    if Readable(visited) then Ok(Taken(pkg, visited)) else Err(OutOfRange)
  }

  function ScanResult(db: seq<Entry>, pkg: Package): Result<seq<Pair>, Error> {
    Visit(pkg, db[ScanStart(db, pkg)..])
  }

  // ----- any scan

  lemma {:induction false} TakenSplit(pkg: Package, es: seq<Entry>, c: nat)
    requires c <= |es|
    ensures Taken(pkg, es) == Taken(pkg, es[..c]) + Taken(pkg, es[c..])
  {
    if c == |es| {
      assert es[..c] == es;
    } else {
      var n := |es| - 1;
      TakenSplit(pkg, es[..n], c);
      assert es[..n][..c] == es[..c] && es[c..][..n - c] == es[..n][c..];
    }
  }

  lemma {:induction false} ChargesMonotone(pkg: Package, es: seq<Entry>, b: nat)
    requires b <= |es|
    ensures Charges(pkg, es[..b]) <= Charges(pkg, es)
  {
    if b == |es| {
      assert es[..b] == es;
    } else {
      ChargesMonotone(pkg, es[..|es| - 1], b);
      assert es[..|es| - 1][..b] == es[..b];
    }
  }

  // Whatever the filter, the result is a prefix of all qualifying entries
  // from the seek position, and all of them if the budget is not used up.
  lemma ScanIsPrefix(db: seq<Entry>, pkg: Package)
    requires ScanResult(db, pkg).Ok?
    ensures var es := db[ScanStart(db, pkg)..];
            && ScanResult(db, pkg).value <= Taken(pkg, es)
            && (Charges(pkg, es) < pkg.scanLength ==> ScanResult(db, pkg).value == Taken(pkg, es))
  {
    var es := db[ScanStart(db, pkg)..];
    var c := Cut(pkg, es, pkg.scanLength);
    TakenSplit(pkg, es, c);
    ChargesMonotone(pkg, es, c);
    if Charges(pkg, es) < pkg.scanLength {
      assert es[..c] == es;
    }
  }

  // ----- records

  // The entries in range.
  function Seen(pkg: Package, es: seq<Entry>): seq<Entry> {
    if |es| == 0 then []
    else Seen(pkg, es[..|es| - 1]) + if InRange(pkg, es[|es| - 1]) then [es[|es| - 1]] else []
  }

  // Record keys with adjacent repetitions dropped.
  function Records(v: seq<Entry>): (r: seq<nat>)
    ensures |r| <= |v| && (v != [] ==> r != [] && r[|r| - 1] == KeyNumber(v[|v| - 1].key))
  {
    if |v| == 0 then []
    else
      var r := Records(v[..|v| - 1]);
      if r != [] && r[|r| - 1] == KeyNumber(v[|v| - 1].key) then r else r + [KeyNumber(v[|v| - 1].key)]
  }

  function PairsOf(v: seq<Entry>): (r: seq<Pair>)
    ensures |r| == |v|
  {
    if |v| == 0 then []
    else PairsOf(v[..|v| - 1]) + [Pair(FieldName(v[|v| - 1].key), v[|v| - 1].value)]
  }

  lemma {:induction false} SeenValid(pkg: Package, es: seq<Entry>)
    requires ValidStore(es)
    ensures ValidStore(Seen(pkg, es))
    ensures forall e :: e in Seen(pkg, es) ==> e in es
  {
    if |es| == 0 {
    } else {
      var n := |es| - 1;
      var init := Seen(pkg, es[..n]);
      SeenValid(pkg, es[..n]);
      var v := Seen(pkg, es);
      forall i, j | 0 <= i < j < |v| ensures Less(v[i].key, v[j].key) {
        if j == |init| {
          assert init[i] in es[..n];
        }
      }
    }
  }

  // Entries of one record are contiguous, and record 0 comes first.
  lemma Grouped(v: seq<Entry>, i: nat, j: nat, l: nat)
    requires ValidStore(v) && i <= j <= l < |v|
    ensures KeyNumber(v[i].key) == KeyNumber(v[l].key) ==> KeyNumber(v[j].key) == KeyNumber(v[i].key)
  {
    if KeyNumber(v[i].key) == KeyNumber(v[l].key) && i < j < l {
      var a, b, c := v[i].key, v[j].key, v[l].key;
      assert Less(a, b) && Less(b, c);
      PackedEntry(a);
      PackedEntry(c);
      RecordContiguous(KeyNumber(a), FieldName(a), b, FieldName(c));
    }
  }

  lemma ZeroFirst(v: seq<Entry>, i: nat, l: nat)
    requires ValidStore(v) && i <= l < |v|
    ensures KeyNumber(v[l].key) == 0 ==> KeyNumber(v[i].key) == 0
  {
    if i < l {
      var a, c := v[i].key, v[l].key;
      assert Less(a, c);
      PackedEntry(a);
      PackedEntry(c);
      PackedOrder(KeyNumber(a), FieldName(a), KeyNumber(c), FieldName(c), []);
    }
  }

  // Every entry's record is listed, and every listed record has an entry.
  lemma {:induction false} RecordsCover(v: seq<Entry>, i: nat)
    requires i < |v|
    ensures KeyNumber(v[i].key) in Records(v)
  {
    if i < |v| - 1 {
      RecordsCover(v[..|v| - 1], i);
    } else {
      var r := Records(v);
      assert r[|r| - 1] == KeyNumber(v[i].key);
    }
  }

  lemma {:induction false} RecordHasEntry(v: seq<Entry>, k: nat) returns (i: nat)
    requires k in Records(v)
    ensures i < |v| && KeyNumber(v[i].key) == k
  {
    if k == KeyNumber(v[|v| - 1].key) {
      i := |v| - 1;
    } else {
      i := RecordHasEntry(v[..|v| - 1], k);
    }
  }

  predicate Distinct(r: seq<nat>) {
    forall i, j :: 0 <= i < j < |r| ==> r[i] != r[j]
  }

  lemma ValidPrefix(v: seq<Entry>, c: nat)
    requires ValidStore(v) && c <= |v|
    ensures ValidStore(v[..c])
  {
  }

  // No record is visited twice.
  lemma {:induction false} RecordsDistinct(v: seq<Entry>)
    requires ValidStore(v)
    ensures Distinct(Records(v))
  {
    if |v| == 0 {
    } else {
      var n := |v| - 1;
      RecordsDistinct(v[..n]);
      var r, k := Records(v[..n]), KeyNumber(v[n].key);
      if r != [] && r[|r| - 1] != k && k in r {
        var i := RecordHasEntry(v[..n], k);
        Grouped(v, i, n - 1, n);
        assert false;
      }
    }
  }

  lemma {:induction false} RecordsPrefix(w: seq<Entry>, v: seq<Entry>)
    requires w <= v
    ensures Records(w) <= Records(v)
  {
    if |w| < |v| {
      RecordsPrefix(w, v[..|v| - 1]);
    } else {
      assert w == v;
    }
  }

  // ----- unfiltered scans

  // Records of which the start is not charged: the first one, and the second
  // one if the first is record 0.
  function Uncharged(r: seq<nat>): nat {
    if |r| == 0 then 0 else if r[0] == 0 && |r| > 1 then 2 else 1
  }

  lemma {:induction false} ZeroAlone(v: seq<Entry>)
    requires v != [] && ValidStore(v)
    ensures KeyNumber(v[|v| - 1].key) == 0 ==> |Records(v)| == 1
  {
    if |v| == 1 {
    } else {
      ZeroAlone(v[..|v| - 1]);
      ZeroFirst(v, |v| - 2, |v| - 1);
    }
  }

  lemma SeenStep(pkg: Package, es: seq<Entry>)
    requires es != []
    ensures var u, e := Seen(pkg, es[..|es| - 1]), es[|es| - 1];
            Seen(pkg, es) == if InRange(pkg, e) then u + [e] else u
  {
  }

  // Records after one more entry.
  lemma RecordsStep(u: seq<Entry>, e: Entry)
    ensures var r, k := Records(u), KeyNumber(e.key);
            Records(u + [e]) == if r != [] && LastOf(r) == k then r else r + [k]
  {
    assert (u + [e])[..|u|] == u;
  }

  lemma {:induction false} UnfilteredTaken(pkg: Package, es: seq<Entry>)
    requires pkg.kvPairs == []
    ensures var v := Seen(pkg, es);
            && Taken(pkg, es) == PairsOf(v)
            && LastRecord(pkg, es) == LastOf(Records(v))
  {
    if |es| == 0 {
    } else {
      UnfilteredTaken(pkg, es[..|es| - 1]);
      SeenStep(pkg, es);
      var u := Seen(pkg, es[..|es| - 1]);
      assert (u + [es[|es| - 1]])[..|u|] == u;
    }
  }

  function LastOf(r: seq<nat>): nat {
    if r == [] then 0 else r[|r| - 1]
  }

  // One step of the scan, in terms of the records it has seen.
  lemma ChargeStep(pkg: Package, es: seq<Entry>)
    requires ValidStore(es) && es != [] && pkg.kvPairs == []
    ensures var init, e := es[..|es| - 1], es[|es| - 1];
            var r, r' := Records(Seen(pkg, init)), Records(Seen(pkg, es));
            && (Charged(pkg, init, e) <==> InRange(pkg, e) && LastOf(r) != 0 && LastOf(r) != KeyNumber(e.key))
            && r' == (if InRange(pkg, e) && (r == [] || LastOf(r) != KeyNumber(e.key)) then r + [KeyNumber(e.key)] else r)
            && (r != [] && LastOf(r) == 0 ==> |r| == 1)
  {
    var init, e := es[..|es| - 1], es[|es| - 1];
    hide ValidStore, Seen, Records, LastRecord, KeyNumber, FieldName, Taken, PairsOf;
    UnfilteredTaken(pkg, init);
    SeenStep(pkg, es);
    SeenValid(pkg, es);
    ValidPrefix(es, |es| - 1);
    SeenValid(pkg, init);
    LoneZero(Seen(pkg, init));
    if InRange(pkg, e) {
      RecordsStep(Seen(pkg, init), e);
    }
  }

  lemma LoneZero(v: seq<Entry>)
    requires ValidStore(v)
    ensures Records(v) != [] && LastOf(Records(v)) == 0 ==> |Records(v)| == 1
  {
    if v != [] {
      ZeroAlone(v);
    }
  }

  lemma UnchargedStep(r: seq<nat>, r': seq<nat>, k: nat, seen: bool)
    requires r' == (if seen && (r == [] || LastOf(r) != k) then r + [k] else r)
    requires r != [] && LastOf(r) == 0 ==> |r| == 1
    ensures |r'| - Uncharged(r') ==
            |r| - Uncharged(r) + if seen && LastOf(r) != 0 && LastOf(r) != k then 1 else 0
  {
  }

  // Charges count the records in range, but for the uncharged ones.
  lemma {:induction false} UnfilteredCharges(pkg: Package, es: seq<Entry>)
    requires ValidStore(es) && pkg.kvPairs == []
    ensures Charges(pkg, es) + Uncharged(Records(Seen(pkg, es))) == |Records(Seen(pkg, es))|
  {
    if |es| == 0 {
    } else {
      ValidPrefix(es, |es| - 1);
      UnfilteredCharges(pkg, es[..|es| - 1]);
      ChargeStep(pkg, es);
      hide Records, Seen, ValidStore, Charged, InRange, KeyNumber, Uncharged, LastOf;
      var e := es[|es| - 1];
      UnchargedStep(Records(Seen(pkg, es[..|es| - 1])), Records(Seen(pkg, es)), KeyNumber(e.key), InRange(pkg, e));
    }
  }

  // Entry i is the first of record number m, in order of appearance.
  ghost predicate Opens(v: seq<Entry>, m: nat, i: int) {
    && m < |Records(v)| && 0 <= i < |v|
    && KeyNumber(v[i].key) == Records(v)[m]
    && (forall j :: 0 <= j < i ==> KeyNumber(v[j].key) in Records(v)[..m])
    && (forall j :: i <= j < |v| ==> KeyNumber(v[j].key) !in Records(v)[..m])
  }

  // Records whose entries an unfiltered scan returns in full.
  function FullRecords(pkg: Package, v: seq<Entry>): nat {
    pkg.scanLength + if Records(v) != [] && Records(v)[0] == 0 then 1 else 0
  }

  lemma OpensAt(v: seq<Entry>, w: seq<Entry>, e: Entry)
    requires ValidStore(v) && w + [e] <= v
    requires Records(w + [e]) == Records(w) + [KeyNumber(e.key)]
    ensures Opens(v, |Records(w)|, |w|)
    ensures Records(w) <= Records(v)
  {
    var m, r := |Records(w)|, Records(v);
    RecordsPrefix(w + [e], v);
    RecordsDistinct(v);
    assert r[..m] == Records(w) && r[m] == KeyNumber(e.key);
    assert v[..|w|] == w && v[|w|] == e;
    forall j | 0 <= j < |w| ensures KeyNumber(v[j].key) in r[..m] {
      RecordsCover(w, j);
    }
    forall j | |w| <= j < |v| ensures KeyNumber(v[j].key) !in r[..m] {
      NotEarlier(v, w, j);
    }
  }

  // The entry after w opens a record, so no later entry belongs to one of w.
  lemma NotEarlier(v: seq<Entry>, w: seq<Entry>, j: nat)
    requires ValidStore(v) && w <= v && |w| <= j < |v|
    requires KeyNumber(v[|w|].key) !in Records(w)
    ensures KeyNumber(v[j].key) !in Records(w)
  {
    if KeyNumber(v[j].key) in Records(w) {
      var i := RecordHasEntry(w, KeyNumber(v[j].key));
      RecordsCover(w, i);
      assert v[i] == w[i];
      Grouped(v, i, |w|, j);
    }
  }

  lemma {:induction false} SeenPrefix(pkg: Package, es: seq<Entry>, c: nat)
    requires c <= |es|
    ensures Seen(pkg, es[..c]) <= Seen(pkg, es)
  {
    if c == |es| {
      assert es[..c] == es;
    } else {
      SeenPrefix(pkg, es[..|es| - 1], c);
      assert es[..|es| - 1][..c] == es[..c];
    }
  }

  // An unfiltered scan of n records that does not throw returns, in store
  // order, all entries of the first n records in range (n + 1 if record 0 is
  // among them) and the first entry of the next record, and nothing else.
  lemma UnfilteredScan(db: seq<Entry>, pkg: Package) returns (c: nat)
    requires ValidStore(db) && pkg.kvPairs == [] && pkg.scanLength > 0
    ensures Readable(db) ==> ScanResult(db, pkg).Ok?
    ensures var v := Seen(pkg, db);
            && c <= |v|
            && (ScanResult(db, pkg).Ok? ==> ScanResult(db, pkg).value == PairsOf(v[..c]))
            && Distinct(Records(v))
            && (|Records(v)| <= FullRecords(pkg, v) ==> c == |v|)
            && (|Records(v)| > FullRecords(pkg, v) ==> Opens(v, FullRecords(pkg, v), c - 1))
  {
    hide ValidStore, Opens, Seen, Records, Charges, Distinct;
    assert db[0..] == db;
    var cut := Cut(pkg, db, pkg.scanLength);
    var v, u := Seen(pkg, db), Seen(pkg, db[..cut]);
    c := |u|;
    SeenPrefix(pkg, db, cut);
    assert v[..c] == u;
    SeenValid(pkg, db);
    RecordsDistinct(v);
    UnfilteredTaken(pkg, db[..cut]);
    if Charges(pkg, db) < pkg.scanLength {
      ChargesMonotone(pkg, db, cut);
      assert db[..cut] == db;
      UnfilteredCharges(pkg, db);
    } else {
      LastIsCharged(pkg, db, cut);
    }
  }

  lemma CutIsCharged(pkg: Package, es: seq<Entry>, n: nat)
    requires 0 < n <= Charges(pkg, es)
    ensures var cut := Cut(pkg, es, n);
            && cut > 0
            && Charged(pkg, es[..cut - 1], es[cut - 1])
            && Charges(pkg, es[..cut - 1]) == n - 1
  {
    var cut := Cut(pkg, es, n);
    assert es[..|es|] == es && es[..0] == [];
    assert cut > 0;
    assert es[..cut][..cut - 1] == es[..cut - 1];
  }

  // Where the budget runs out, the last visited entry has opened a record.
  lemma LastIsCharged(pkg: Package, db: seq<Entry>, cut: nat)
    requires ValidStore(db) && pkg.kvPairs == [] && pkg.scanLength > 0
    requires cut == Cut(pkg, db, pkg.scanLength) && Charges(pkg, db) >= pkg.scanLength
    ensures Opens(Seen(pkg, db), FullRecords(pkg, Seen(pkg, db)), |Seen(pkg, db[..cut])| - 1)
    ensures |Records(Seen(pkg, db))| > FullRecords(pkg, Seen(pkg, db))
  {
    hide ValidStore, Seen, Records, Charges, Uncharged, LastOf;
    CutIsCharged(pkg, db, pkg.scanLength);
    SeenAtCut(pkg, db, cut);
    ValidPrefix(db, cut - 1);
    UnfilteredCharges(pkg, db[..cut - 1]);
    SeenValid(pkg, db);
    OpensAt(Seen(pkg, db), Seen(pkg, db[..cut - 1]), db[cut - 1]);
    FullCount(Records(Seen(pkg, db[..cut - 1])), Records(Seen(pkg, db)), pkg.scanLength);
  }

  // A charged entry is in range and opens a record.
  lemma SeenAtCut(pkg: Package, db: seq<Entry>, c: nat)
    requires ValidStore(db) && pkg.kvPairs == [] && 0 < c <= |db|
    requires Charged(pkg, db[..c - 1], db[c - 1])
    ensures var w, e := Seen(pkg, db[..c - 1]), db[c - 1];
            && Seen(pkg, db[..c]) == w + [e] <= Seen(pkg, db)
            && Records(w + [e]) == Records(w) + [KeyNumber(e.key)]
            && LastOf(Records(w)) != 0
  {
    hide ValidStore, Seen, Records, LastOf;
    var upto := db[..c];
    assert upto[..c - 1] == db[..c - 1] && upto[c - 1] == db[c - 1];
    ValidPrefix(db, c);
    ChargeStep(pkg, upto);
    SeenStep(pkg, upto);
    SeenPrefix(pkg, db, c);
  }

  lemma FullCount(r: seq<nat>, all: seq<nat>, n: nat)
    requires r <= all && LastOf(r) != 0 && n - 1 + Uncharged(r) == |r|
    ensures all != [] && |r| == n + if all[0] == 0 then 1 else 0
  {
    assert r != [] && all[0] == r[0];
  }

  // ----- filtered scans

  // The same scan without its filter.
  function Unfiltered(pkg: Package): Package {
    pkg.(kvPairs := [])
  }

  // What a filter leaves of a result.
  function OnlyWanted(pkg: Package, ps: seq<Pair>): seq<Pair> {
    if |ps| == 0 then []
    else
      var p := ps[|ps| - 1];
      OnlyWanted(pkg, ps[..|ps| - 1]) + if Wanted(pkg, p.name) then [p] else []
  }

  lemma {:induction false} TakenIsWanted(pkg: Package, es: seq<Entry>)
    ensures Taken(pkg, es) == OnlyWanted(pkg, Taken(Unfiltered(pkg), es))
  {
    if |es| == 0 {
    } else {
      var n, all := |es| - 1, Taken(Unfiltered(pkg), es);
      var before := Taken(Unfiltered(pkg), es[..n]);
      TakenIsWanted(pkg, es[..n]);
      AllWanted(pkg, FieldName(es[n].key));
      if InRange(pkg, es[n]) {
        assert all != [] && all[..|all| - 1] == before;
      } else {
        assert all == before;
      }
    }
  }

  // Entry i is the first one of its record, and comes after an entry in range
  // of another record than 0.
  ghost predicate OpensRecord(pkg: Package, es: seq<Entry>, i: nat) {
    && i < |es| && InRange(pkg, es[i])
    && (exists j :: 0 <= j < i && InRange(pkg, es[j]) && KeyNumber(es[j].key) != 0)
    && (forall j :: 0 <= j < i ==> KeyNumber(es[j].key) != KeyNumber(es[i].key))
  }

  // Among the first c entries, every one that opens a record is wanted.
  ghost predicate OpeningsWanted(pkg: Package, es: seq<Entry>, c: nat)
    requires c <= |es|
  {
    forall i :: 0 <= i < c && OpensRecord(pkg, es, i) ==> Wanted(pkg, FieldName(es[i].key))
  }

  // No entry from c on is in range and wanted.
  ghost predicate NothingFrom(pkg: Package, es: seq<Entry>, c: nat) {
    forall j :: c <= j < |es| ==> !Takes(pkg, es[j])
  }

  // The last entry in range before i, or -1.
  lemma {:induction false} LastRecordAt(pkg: Package, es: seq<Entry>, i: nat) returns (j: int)
    requires i <= |es|
    ensures -1 <= j < i
    ensures LastRecord(pkg, es[..i]) == if j == -1 then 0 else KeyNumber(es[j].key)
    ensures j >= 0 ==> InRange(pkg, es[j])
    ensures forall m :: j < m < i ==> !InRange(pkg, es[m])
  {
    if i == 0 {
      j := -1;
    } else if InRange(pkg, es[i - 1]) {
      j := i - 1;
    } else {
      j := LastRecordAt(pkg, es, i - 1);
      assert es[..i][..i - 1] == es[..i - 1];
    }
  }

  // The loop's accounting by last_key charges exactly the entries that open a
  // record, and with a filter those of them that are wanted.
  lemma ChargedOpens(pkg: Package, es: seq<Entry>, i: nat)
    requires ValidStore(es) && i < |es|
    ensures Charged(pkg, es[..i], es[i]) <==> OpensRecord(pkg, es, i) && Wanted(pkg, FieldName(es[i].key))
  {
    var j := LastRecordAt(pkg, es, i);
    hide ValidStore, KeyNumber, FieldName, LastRecord;
    var k := KeyNumber(es[i].key);
    if j >= 0 && KeyNumber(es[j].key) != k {
      forall m | 0 <= m < i ensures KeyNumber(es[m].key) == k ==> !InRange(pkg, es[i]) {
        if KeyNumber(es[m].key) == k && m <= j {
          Grouped(es, m, j, i);
        }
      }
    }
    if m :| 0 <= m < i && InRange(pkg, es[m]) && KeyNumber(es[m].key) != 0 {
      ZeroFirst(es, m, j);
    }
  }

  lemma ChargeNext(pkg: Package, es: seq<Entry>, i: nat)
    requires i < |es|
    ensures Charges(pkg, es[..i + 1]) == Charges(pkg, es[..i]) + if Charged(pkg, es[..i], es[i]) then 1 else 0
  {
    assert es[..i + 1][..i] == es[..i];
  }

  lemma {:induction false} FilterCharges(pkg: Package, es: seq<Entry>, c: nat)
    requires ValidStore(es) && c <= |es|
    ensures Charges(pkg, es[..c]) <= Charges(Unfiltered(pkg), es[..c])
    ensures Charges(pkg, es[..c]) == Charges(Unfiltered(pkg), es[..c]) <==> OpeningsWanted(pkg, es, c)
  {
    if c == 0 {
      assert es[..0] == [];
    } else {
      FilterCharges(pkg, es, c - 1);
      ChargeNext(pkg, es, c - 1);
      ChargeNext(Unfiltered(pkg), es, c - 1);
      ChargedEither(pkg, es, c - 1);
      OpeningsStep(pkg, es, c - 1);
      hide ValidStore, Charged, Charges, Wanted, OpensRecord, OpeningsWanted;
    }
  }

  lemma OpeningsStep(pkg: Package, es: seq<Entry>, c: nat)
    requires c < |es|
    ensures OpeningsWanted(pkg, es, c + 1) <==>
            OpeningsWanted(pkg, es, c) && (OpensRecord(pkg, es, c) ==> Wanted(pkg, FieldName(es[c].key)))
  {
  }

  lemma ChargedEither(pkg: Package, es: seq<Entry>, i: nat)
    requires ValidStore(es) && i < |es|
    ensures Charged(Unfiltered(pkg), es[..i], es[i]) <==> OpensRecord(pkg, es, i)
    ensures Charged(pkg, es[..i], es[i]) <==> OpensRecord(pkg, es, i) && Wanted(pkg, FieldName(es[i].key))
  {
    ChargedOpens(pkg, es, i);
    ChargedOpens(Unfiltered(pkg), es, i);
    SameOpenings(pkg, es, i);
    AllWanted(pkg, FieldName(es[i].key));
  }

  lemma SameOpenings(pkg: Package, es: seq<Entry>, i: nat)
    ensures OpensRecord(Unfiltered(pkg), es, i) <==> OpensRecord(pkg, es, i)
  {
    assert forall e :: InRange(Unfiltered(pkg), e) == InRange(pkg, e);
  }

  lemma AllWanted(pkg: Package, name: bytes)
    ensures Wanted(Unfiltered(pkg), name)
  {
  }

  lemma SameCut(pkg: Package, es: seq<Entry>, n: nat)
    requires ValidStore(es)
    requires OpeningsWanted(pkg, es, Cut(Unfiltered(pkg), es, n))
    ensures Cut(pkg, es, n) == Cut(Unfiltered(pkg), es, n)
  {
    var c, d := Cut(Unfiltered(pkg), es, n), Cut(pkg, es, n);
    hide ValidStore, Charges;
    FilterCharges(pkg, es, c);
    if d < c {
      FilterCharges(pkg, es, d);
    }
  }

  lemma {:induction false} NoTakenNoCharge(pkg: Package, es: seq<Entry>, c: nat, d: nat)
    requires c <= d <= |es| && forall j :: c <= j < d ==> !Takes(pkg, es[j])
    ensures Charges(pkg, es[..d]) == Charges(pkg, es[..c])
  {
    if d == c {
    } else {
      NoTakenNoCharge(pkg, es, c, d - 1);
      ChargeNext(pkg, es, d - 1);
    }
  }

  // Where a record is opened for free, the filtered scan goes on to the end
  // or to the next entry that is taken.
  lemma LaterCut(pkg: Package, es: seq<Entry>, n: nat)
    requires ValidStore(es)
    requires !OpeningsWanted(pkg, es, Cut(Unfiltered(pkg), es, n))
    ensures var c, d := Cut(Unfiltered(pkg), es, n), Cut(pkg, es, n);
            c <= d && (d == |es| || exists j :: c <= j < d && Takes(pkg, es[j]))
  {
    var c, d := Cut(Unfiltered(pkg), es, n), Cut(pkg, es, n);
    hide ValidStore, Charges, Takes, OpensRecord;
    FilterCharges(pkg, es, c);
    FilterCharges(pkg, es, d);
    CutSpends(Unfiltered(pkg), es, n);
    if c <= d && forall j :: c <= j < d ==> !Takes(pkg, es[j]) {
      NoTakenNoCharge(pkg, es, c, d);
    }
  }

  // Where a scan stops: the budget is spent, or the end reached, and one entry
  // earlier it was neither.
  lemma CutIs(pkg: Package, es: seq<Entry>, n: nat, c: nat)
    requires c <= |es| && (c == |es| || Charges(pkg, es[..c]) >= n)
    requires c == 0 || Charges(pkg, es[..c - 1]) < n
    ensures Cut(pkg, es, n) == c
  {
    forall b | 0 <= b < c ensures Charges(pkg, es[..b]) < n {
      assert es[..c - 1][..b] == es[..b];
      ChargesMonotone(pkg, es[..c - 1], b);
    }
  }

  lemma CutSpends(pkg: Package, es: seq<Entry>, n: nat)
    ensures Charges(pkg, es[..Cut(pkg, es, n)]) <= n
  {
    var c := Cut(pkg, es, n);
    if c == 0 {
      assert es[..0] == [];
    } else {
      ChargeNext(pkg, es, c - 1);
    }
  }

  // What is taken between c and d.
  lemma TakenBetween(pkg: Package, es: seq<Entry>, c: nat, d: nat)
    requires c <= d <= |es|
    ensures Taken(pkg, es[..d]) == Taken(pkg, es[..c]) <==> forall j :: c <= j < d ==> !Takes(pkg, es[j])
  {
    hide Taken, Takes;
    TakenSplit(pkg, es[..d], c);
    assert es[..d][..c] == es[..c];
    var t := es[..d][c..];
    assert t[..d - c] == t && forall i :: 0 <= i < d - c ==> t[i] == es[c + i];
    if j :| c <= j < d && Takes(pkg, es[j]) {
      SomethingTaken(pkg, t, d - c, j - c);
    } else {
      NothingTaken(pkg, t, d - c);
    }
  }

  // A scan with a filter returns what the filter leaves of the scan without
  // it exactly when, as far as that one goes, the filter wants every entry
  // that opens a record, or when there is nothing more to take. Otherwise
  // records are visited for free, beyond the budget.
  lemma FilterKeepsBudgetExactly(pkg: Package, es: seq<Entry>)
    requires ValidStore(es) && Visit(Unfiltered(pkg), es).Ok?
    ensures var c := Cut(Unfiltered(pkg), es, pkg.scanLength);
            Visit(pkg, es) == Ok(OnlyWanted(pkg, Visit(Unfiltered(pkg), es).value)) <==>
            OpeningsWanted(pkg, es, c) || (NothingFrom(pkg, es, c) && Readable(es[c..]))
  {
    var n := pkg.scanLength;
    var c, d := Cut(Unfiltered(pkg), es, n), Cut(pkg, es, n);
    hide ValidStore, Charges, Taken, OnlyWanted, OpeningsWanted, Takes, Cut;
    TakenIsWanted(pkg, es[..c]);
    if OpeningsWanted(pkg, es, c) {
      SameCut(pkg, es, n);
    } else {
      LaterCut(pkg, es, n);
      TakenBetween(pkg, es, c, d);
      if d == |es| {
        ReadableSplit(es, c);
        assert es[..d] == es;
      }
    }
  }

  lemma ReadableSplit(es: seq<Entry>, c: nat)
    requires c <= |es|
    ensures Readable(es) <==> Readable(es[..c]) && Readable(es[c..])
  {
    assert es == es[..c] + es[c..];
    forall i | 0 <= i < |es|
      ensures es[i] == if i < c then es[..c][i] else es[c..][i - c]
    {
    }
    assert forall i :: 0 <= i < |es| - c ==> es[c..][i] == es[c + i];
  }

  // The same for the scans of a store that do not seek.
  lemma FilteredScanExactly(db: seq<Entry>, pkg: Package)
    requires ValidStore(db) && |pkg.kvPairs| != 1 && ScanResult(db, Unfiltered(pkg)).Ok?
    ensures var c := Cut(Unfiltered(pkg), db, pkg.scanLength);
            ScanResult(db, pkg) == Ok(OnlyWanted(pkg, ScanResult(db, Unfiltered(pkg)).value)) <==>
            OpeningsWanted(pkg, db, c) || (NothingFrom(pkg, db, c) && Readable(db[c..]))
  {
    assert db[0..] == db;
    FilterKeepsBudgetExactly(pkg, db);
  }

  // ----- every scan, without reference to the loop

  // idx lists, in ascending order, the places of the entries in range that
  // the filter wants; taken are their field names and values.
  ghost predicate TakenAt(pkg: Package, es: seq<Entry>, taken: seq<Pair>, idx: seq<nat>) {
    && |idx| == |taken|
    && (forall i, j :: 0 <= i < j < |idx| ==> idx[i] < idx[j])
    && (forall j :: 0 <= j < |idx| ==>
          idx[j] < |es| && taken[j] == Pair(FieldName(es[idx[j]].key), es[idx[j]].value))
    && (forall i :: 0 <= i < |es| ==>
          (i in idx <==> KeyNumber(es[i].key) >= pkg.key && Wanted(pkg, FieldName(es[i].key))))
  }

  lemma {:induction false} TakenExactly(pkg: Package, es: seq<Entry>) returns (idx: seq<nat>)
    ensures TakenAt(pkg, es, Taken(pkg, es), idx)
  {
    if |es| == 0 {
      idx := [];
    } else {
      var n := |es| - 1;
      var init := TakenExactly(pkg, es[..n]);
      idx := init + if Takes(pkg, es[n]) then [n] else [];
      hide Wanted, KeyNumber, FieldName;
      assert forall i :: 0 <= i < n ==> es[..n][i] == es[i];
      assert forall i :: 0 <= i < |es| ==> (i in idx <==> i in init || (i == n && Takes(pkg, es[n])));
    }
  }

  ghost predicate WantedOpening(pkg: Package, es: seq<Entry>, i: nat) {
    OpensRecord(pkg, es, i) && Wanted(pkg, FieldName(es[i].key))
  }

  // The wanted entries among the first b that open a record.
  ghost function Openings(pkg: Package, es: seq<Entry>, b: nat): set<nat> {
    set i: nat | i < b && WantedOpening(pkg, es, i)
  }

  lemma OneMoreOpening(pkg: Package, es: seq<Entry>, b: nat)
    ensures |Openings(pkg, es, b + 1)| == |Openings(pkg, es, b)| + if WantedOpening(pkg, es, b) then 1 else 0
  {
    hide WantedOpening;
    var before := Openings(pkg, es, b);
    assert Openings(pkg, es, b + 1) == if WantedOpening(pkg, es, b) then before + {b} else before;
  }

  lemma ChargedOpening(pkg: Package, es: seq<Entry>, i: nat)
    requires ValidStore(es) && i < |es|
    ensures Charged(pkg, es[..i], es[i]) <==> WantedOpening(pkg, es, i)
  {
    hide ValidStore, Charged;
    ChargedOpens(pkg, es, i);
  }

  lemma {:induction false} ChargesCount(pkg: Package, es: seq<Entry>, b: nat)
    requires ValidStore(es) && b <= |es|
    ensures Charges(pkg, es[..b]) == |Openings(pkg, es, b)|
  {
    if b == 0 {
      assert Openings(pkg, es, 0) == {} && es[..0] == [];
    } else {
      ChargedOpening(pkg, es, b - 1);
      hide *;
      ChargesCount(pkg, es, b - 1);
      ChargeNext(pkg, es, b - 1);
      OneMoreOpening(pkg, es, b - 1);
    }
  }

  // A scan visits the entries s to c: it starts at the first entry that is
  // not before the key of its only field, or at the first of all, and goes on
  // until the budget is spent on wanted entries that open a record.
  ghost predicate Visits(db: seq<Entry>, pkg: Package, s: nat, c: nat) {
    && s <= c <= |db|
    && (|pkg.kvPairs| != 1 ==> s == 0)
    && (|pkg.kvPairs| == 1 ==>
          var key := PackKey(pkg.key, pkg.kvPairs[0].name, []);
          (forall j :: 0 <= j < s ==> Less(db[j].key, key)) && (s < |db| ==> !Less(db[s].key, key)))
    && (forall b :: 0 <= b < c - s ==> |Openings(pkg, db[s..], b)| < pkg.scanLength)
    && (c < |db| ==> |Openings(pkg, db[s..], c - s)| == pkg.scanLength)
  }

  // What is in range and wanted among the entries visited; an exception if
  // the record key of one of them does not fit.
  ghost predicate Returned(db: seq<Entry>, pkg: Package, r: Result<seq<Pair>, Error>) {
    exists s: nat, c: nat ::
      Visits(db, pkg, s, c) && r == if Readable(db[s..c]) then Ok(Taken(pkg, db[s..c])) else Err(OutOfRange)
  }

  // Whatever the filter and the budget, a scan returns exactly that.
  lemma ScanExactly(db: seq<Entry>, pkg: Package)
    requires ValidStore(db)
    ensures Returned(db, pkg, ScanResult(db, pkg))
  {
    var s := ScanStart(db, pkg);
    var es := db[s..];
    var cut := Cut(pkg, es, pkg.scanLength);
    assert es[..cut] == db[s..s + cut];
    BudgetCounts(pkg, es);
    hide ValidStore, Charges, Openings, Taken, Less, Cut;
    assert Visits(db, pkg, s, s + cut);
  }

  lemma BudgetCounts(pkg: Package, es: seq<Entry>)
    requires ValidStore(es)
    ensures var n, cut := pkg.scanLength, Cut(pkg, es, pkg.scanLength);
            && (forall b :: 0 <= b < cut ==> |Openings(pkg, es, b)| < n)
            && (cut < |es| ==> |Openings(pkg, es, cut)| == n)
  {
    var cut := Cut(pkg, es, pkg.scanLength);
    CutSpends(pkg, es, pkg.scanLength);
    hide ValidStore, Charges, Openings;
    forall b | 0 <= b <= cut ensures |Openings(pkg, es, b)| == Charges(pkg, es[..b]) {
      ChargesCount(pkg, es, b);
    }
  }

  // ----- scans for a single field, which seek

  // Record k is at least `start` as a number, but its leading digits are
  // less: in byte order it comes before `start`.
  predicate Skipped(k: nat, start: nat) {
    |Digits(k)| > |Digits(start)| && Leading(k, |Digits(k)| - |Digits(start)|) < start
  }

  // The seek passes over a wanted entry exactly when its record is skipped.
  lemma SeekSkips(db: seq<Entry>, start: u64, name: bytes, i: nat)
    requires ValidStore(db) && i < |db|
    requires FieldName(db[i].key) == name && KeyNumber(db[i].key) >= start
    ensures i < SeekIndex(db, PackKey(start, name, [])) <==> Skipped(KeyNumber(db[i].key), start)
  {
    var k, s := KeyNumber(db[i].key), SeekIndex(db, PackKey(start, name, []));
    PackedEntry(db[i].key);
    PackedOrder(k, name, start, name, []);
    LessIrreflexive(name);
    if |Digits(k)| < |Digits(start)| {
      LongerIsLarger(k, start);
    } else if |Digits(k)| == |Digits(start)| {
      DigitsOrder(k, start);
    }
    if s <= i && Less(db[i].key, PackKey(start, name, [])) && s < i {
      LessTransitive(db[s].key, db[i].key, PackKey(start, name, []));
    }
  }

  lemma {:induction false} NothingTaken(pkg: Package, es: seq<Entry>, c: nat)
    requires c <= |es| && forall i :: 0 <= i < c ==> !Takes(pkg, es[i])
    ensures Taken(pkg, es[..c]) == []
  {
    if c == 0 {
    } else {
      OneMore(pkg, es, c - 1);
      hide Takes;
      NothingTaken(pkg, es, c - 1);
    }
  }

  lemma {:induction false} SomethingTaken(pkg: Package, es: seq<Entry>, c: nat, i: nat)
    requires i < c <= |es| && Takes(pkg, es[i])
    ensures Taken(pkg, es[..c]) != []
  {
    OneMore(pkg, es, c - 1);
    if i == c - 1 {
    } else {
      SomethingTaken(pkg, es, c - 1, i);
    }
  }

  lemma OneMore(pkg: Package, es: seq<Entry>, i: nat)
    requires i < |es|
    ensures Taken(pkg, es[..i + 1]) ==
            Taken(pkg, es[..i]) + if Takes(pkg, es[i]) then [Pair(FieldName(es[i].key), es[i].value)] else []
    ensures InRange(pkg, es[i]) ==> LastRecord(pkg, es[..i + 1]) == KeyNumber(es[i].key)
  {
    assert es[..i + 1][..i] == es[..i];
  }

  // With budget left over, a scan for one field returns that field of every
  // record in the numeric range exactly when no such record is skipped.
  lemma SingleFieldScanExactly(db: seq<Entry>, pkg: Package)
    requires ValidStore(db) && |pkg.kvPairs| == 1
    requires ScanResult(db, pkg).Ok? && Charges(pkg, db[ScanStart(db, pkg)..]) < pkg.scanLength
    ensures ScanResult(db, pkg).value == Taken(pkg, db) <==>
            forall i :: 0 <= i < |db| && Takes(pkg, db[i]) ==> !Skipped(KeyNumber(db[i].key), pkg.key)
  {
    hide ValidStore, ScanResult, Taken, Charges, Takes, Skipped;
    var s := ScanStart(db, pkg);
    ScanIsPrefix(db, pkg);
    TakenSplit(pkg, db, s);
    assert ScanResult(db, pkg).value == Taken(pkg, db) <==> Taken(pkg, db[..s]) == [];
    forall i | 0 <= i < |db| && Takes(pkg, db[i])
      ensures i < s <==> Skipped(KeyNumber(db[i].key), pkg.key)
    {
      TakesName(pkg, db[i]);
      SeekSkips(db, pkg.key, pkg.kvPairs[0].name, i);
    }
    if i :| 0 <= i < s && Takes(pkg, db[i]) {
      SomethingTaken(pkg, db, s, i);
    } else {
      NothingTaken(pkg, db, s);
    }
  }

  lemma TakesName(pkg: Package, e: Entry)
    requires |pkg.kvPairs| == 1 && Takes(pkg, e)
    ensures FieldName(e.key) == pkg.kvPairs[0].name && KeyNumber(e.key) >= pkg.key
  {
  }
}
