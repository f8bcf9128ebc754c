/** Three stores on which the limits of exec_scan show: what the scans return,
    and the packages that lead to the stores. */
module ScanExamples {

  import opened Wrappers

  import opened Bytes
  import opened ByteOrder
  import opened Decimal
  import opened Keys
  import opened Store
  import opened Ops
  import opened Scan

  // Field `letter` of a record, with the letter as its value too.
  function At(key: u64, letter: byte): Entry {
    Entry(PackKey(key, [letter], FIELD), [letter])
  }

  function Hit(letter: byte): Pair {
    Pair(FIELD + [letter], [letter])
  }

  // The package that writes it.
  function Insert(key: u64, letter: byte): Package {
    Package(INSERT, 0, 1, key, 0, [Pair([letter], [letter])])
  }

  // A scan for the given fields.
  function ScanFor(key: u64, scanLength: u64, letters: seq<byte>): Package {
    Package(SCAN, 0, 0, key, scanLength, seq(|letters|, i requires 0 <= i < |letters| => Pair(FIELD + [letters[i]], [])))
  }

  lemma AtParts(key: u64, letter: byte)
    ensures KeyNumber(At(key, letter).key) == key && FieldName(At(key, letter).key) == FIELD + [letter]
    ensures At(key, letter).value == [letter]
  {
    PackedParts(key, [letter], FIELD);
  }

  lemma AtOrder(k: u64, a: byte, j: u64, b: byte)
    ensures Less(At(k, a).key, At(j, b).key) <==> if k == j then a < b else RecordBefore(k, j)
  {
    PackedOrder(k, [a], j, [b], FIELD);
  }

  // ----- reaching a store

  lemma Inserted(history: seq<Package>, db: seq<Entry>, key: u64, letter: byte)
    requires StoreAfter(history) == db
    requires forall i :: 0 <= i < |db| ==> Less(db[i].key, At(key, letter).key)
    ensures StoreAfter(history + [Insert(key, letter)]) == db + [At(key, letter)]
  {
    var pkg, e := Insert(key, letter), At(key, letter);
    assert (history + [pkg])[..|history|] == history;
    assert pkg.kvPairs[..0] == [];
    hide At, Less;
    assert InsertAll(db, key, pkg.kvPairs) == Put(db, e.key, e.value) by {
      AtEntry(key, letter);
    }
    PutLast(db, e.key, e.value);
  }

  lemma AtEntry(key: u64, letter: byte)
    ensures At(key, letter) == Entry(PackKey(key, [letter], FIELD), [letter])
  {
  }

  // ----- what a scan takes

  lemma WantedLetter(pkg: Package, letters: seq<byte>, letter: byte)
    requires letters != [] && pkg.kvPairs == ScanFor(pkg.key, pkg.scanLength, letters).kvPairs
    ensures Wanted(pkg, FIELD + [letter]) <==> letter in letters
  {
    forall i | 0 <= i < |letters| ensures pkg.kvPairs[i].name == FIELD + [letter] <==> letters[i] == letter {
      assert pkg.kvPairs[i].name[|FIELD|] == letters[i] && (FIELD + [letter])[|FIELD|] == letter;
    }
  }

  // One more entry of the store, as the scan sees it.
  lemma StepAt(pkg: Package, es: seq<Entry>, es': seq<Entry>, key: u64, letter: byte)
    requires es' == es + [At(key, letter)] && pkg.key <= key
    ensures var last, wanted := LastRecord(pkg, es), Wanted(pkg, FIELD + [letter]);
            && Taken(pkg, es') == Taken(pkg, es) + (if wanted then [Hit(letter)] else [])
            && LastRecord(pkg, es') == key
            && Charges(pkg, es') == Charges(pkg, es) + if wanted && last != 0 && last != key then 1 else 0
  {
    AtParts(key, letter);
    hide At, KeyNumber, FieldName, Wanted, Taken, LastRecord, Charges;
    var n := |es|;
    assert es'[..n] == es && es'[..n + 1] == es' && es'[n] == At(key, letter);
    OneMore(pkg, es', n);
    ChargeNext(pkg, es', n);
  }

  lemma Begin(pkg: Package)
    ensures Taken(pkg, []) == [] && LastRecord(pkg, []) == 0 && Charges(pkg, []) == 0
  {
  }

  // A scan that stops after `visited`, and would not have stopped one earlier.
  lemma StopsAfter(pkg: Package, db: seq<Entry>, visited: seq<Entry>)
    requires ScanStart(db, pkg) <= |db| && visited <= db[ScanStart(db, pkg)..] && Readable(visited)
    requires visited == db[ScanStart(db, pkg)..] || Charges(pkg, visited) >= pkg.scanLength
    requires visited != [] && Charges(pkg, visited[..|visited| - 1]) < pkg.scanLength
    ensures ScanResult(db, pkg) == Ok(Taken(pkg, visited))
  {
    var es, c := db[ScanStart(db, pkg)..], |visited|;
    assert es[..c] == visited && es[..c - 1] == visited[..c - 1];
    CutIs(pkg, es, pkg.scanLength, c);
  }

  // ----- a filter that overruns the budget

  const FOUR := [At(1, 98), At(2, 97), At(2, 98), At(3, 98)]
  const FOUR_HISTORY := [Insert(1, 98), Insert(2, 97), Insert(2, 98), Insert(3, 98)]

  lemma FourOrder()
    ensures Less(At(1, 98).key, At(2, 97).key) && Less(At(1, 98).key, At(2, 98).key)
    ensures Less(At(2, 97).key, At(2, 98).key) && Less(At(1, 98).key, At(3, 98).key)
    ensures Less(At(2, 97).key, At(3, 98).key) && Less(At(2, 98).key, At(3, 98).key)
    ensures Readable(FOUR)
  {
    hide At, Less, KeyNumber;
    OneDigit(1, 98, 2, 97);
    OneDigit(1, 98, 2, 98);
    OneDigit(2, 97, 2, 98);
    OneDigit(1, 98, 3, 98);
    OneDigit(2, 97, 3, 98);
    OneDigit(2, 98, 3, 98);
    AtParts(1, 98);
    AtParts(2, 97);
    AtParts(2, 98);
    AtParts(3, 98);
  }

  lemma OneDigit(k: u64, a: byte, j: u64, b: byte)
    requires k <= j < 10 && (k == j ==> a < b)
    ensures Less(At(k, a).key, At(j, b).key)
  {
    assert |Digits(k)| == |Digits(j)| == 1;
    AtOrder(k, a, j, b);
  }

  lemma FourReached()
    ensures StoreAfter(FOUR_HISTORY) == FOUR && ValidStore(FOUR) && Readable(FOUR)
  {
    FourOrder();
    StoreAfterValid(FOUR_HISTORY);
    hide At, Insert, Less, ValidStore, Readable, StoreAfter;
    var p, db := FOUR_HISTORY, FOUR;
    Nothing();
    Inserted([], [], 1, 98);
    assert [] + [p[0]] == [p[0]] && [] + [db[0]] == [db[0]];
    Inserted([p[0]], [db[0]], 2, 97);
    assert [p[0]] + [p[1]] == [p[0], p[1]] && [db[0]] + [db[1]] == [db[0], db[1]];
    Inserted([p[0], p[1]], [db[0], db[1]], 2, 98);
    assert [p[0], p[1]] + [p[2]] == [p[0], p[1], p[2]] && [db[0], db[1]] + [db[2]] == [db[0], db[1], db[2]];
    Inserted([p[0], p[1], p[2]], [db[0], db[1], db[2]], 3, 98);
    assert [p[0], p[1], p[2]] + [p[3]] == p && [db[0], db[1], db[2]] + [db[3]] == db;
  }

  lemma Nothing()
    ensures StoreAfter([]) == []
  {
  }

  // With a budget of one record, the scan for fields "b" and "c" returns
  // entries of three records: the one for all fields stops at the first entry
  // of record 2, which the filter does not want.
  lemma FilterOverruns()
    ensures var db, pkg, hit := StoreAfter(FOUR_HISTORY), ScanFor(1, 1, [98, 99]), Hit(98);
            && ScanResult(db, pkg) == Ok([hit, hit, hit])
            && ScanResult(db, Unfiltered(pkg)) == Ok([hit, Hit(97)])
  {
    FourReached();
    FilteredFour();
    UnfilteredFour();
  }

  lemma FilteredTwo(pkg: Package)
    requires pkg == ScanFor(1, 1, [98, 99])
    ensures var es := [At(1, 98), At(2, 97)];
            Taken(pkg, es) == [Hit(98)] && LastRecord(pkg, es) == 2 && Charges(pkg, es) == 0
  {
    WantedLetter(pkg, [98, 99], 97);
    WantedLetter(pkg, [98, 99], 98);
    assert pkg.key == 1;
    hide At, Hit, ScanFor, Wanted, Taken, LastRecord, Charges;
    Begin(pkg);
    StepAt(pkg, [], [At(1, 98)], 1, 98);
    StepAt(pkg, [At(1, 98)], [At(1, 98), At(2, 97)], 2, 97);
  }

  lemma FilteredThree(pkg: Package)
    requires pkg == ScanFor(1, 1, [98, 99])
    ensures var es := [At(1, 98), At(2, 97), At(2, 98)];
            Taken(pkg, es) == [Hit(98), Hit(98)] && LastRecord(pkg, es) == 2 && Charges(pkg, es) == 0
  {
    WantedLetter(pkg, [98, 99], 98);
    FilteredTwo(pkg);
    assert pkg.key == 1;
    hide At, Hit, ScanFor, Wanted, Taken, LastRecord, Charges;
    var two := [At(1, 98), At(2, 97)];
    assert two + [At(2, 98)] == [At(1, 98), At(2, 97), At(2, 98)];
    StepAt(pkg, two, two + [At(2, 98)], 2, 98);
    assert [Hit(98)] + [Hit(98)] == [Hit(98), Hit(98)];
  }

  lemma FilteredFour()
    requires Readable(FOUR)
    ensures ScanResult(FOUR, ScanFor(1, 1, [98, 99])) == Ok([Hit(98), Hit(98), Hit(98)])
  {
    var pkg := ScanFor(1, 1, [98, 99]);
    FilteredThree(pkg);
    FilteredLast(pkg);
    assert |pkg.kvPairs| == 2;
    hide At, Hit, ScanFor, Taken, Charges, Readable, ScanResult;
    assert FOUR[..3] == [At(1, 98), At(2, 97), At(2, 98)] && FOUR[0..] == FOUR;
    StopsAfter(pkg, FOUR, FOUR);
  }

  lemma FilteredLast(pkg: Package)
    requires pkg == ScanFor(1, 1, [98, 99])
    ensures Taken(pkg, FOUR) == [Hit(98), Hit(98), Hit(98)]
  {
    var three := [At(1, 98), At(2, 97), At(2, 98)];
    FilteredThree(pkg);
    WantedLetter(pkg, [98, 99], 98);
    assert FOUR == three + [At(3, 98)];
    hide At, Hit, ScanFor, Wanted, Taken, LastRecord, Charges;
    StepAt(pkg, three, FOUR, 3, 98);
    assert [Hit(98), Hit(98)] + [Hit(98)] == [Hit(98), Hit(98), Hit(98)];
  }

  lemma UnfilteredTwo(pkg: Package)
    requires pkg == Unfiltered(ScanFor(1, 1, [98, 99]))
    ensures Taken(pkg, [At(1, 98), At(2, 97)]) == [Hit(98), Hit(97)]
    ensures Charges(pkg, [At(1, 98)]) == 0 && Charges(pkg, [At(1, 98), At(2, 97)]) == 1
  {
    assert pkg.key == 1;
    AllWanted(pkg, FIELD + [97]);
    AllWanted(pkg, FIELD + [98]);
    hide At, Hit, ScanFor, Wanted, Taken, LastRecord, Charges;
    Begin(pkg);
    StepAt(pkg, [], [At(1, 98)], 1, 98);
    StepAt(pkg, [At(1, 98)], [At(1, 98), At(2, 97)], 2, 97);
    assert [Hit(98)] + [Hit(97)] == [Hit(98), Hit(97)];
  }

  lemma UnfilteredFour()
    requires Readable(FOUR)
    ensures ScanResult(FOUR, Unfiltered(ScanFor(1, 1, [98, 99]))) == Ok([Hit(98), Hit(97)])
  {
    var pkg, two := Unfiltered(ScanFor(1, 1, [98, 99])), FOUR[..2];
    UnfilteredTwo(pkg);
    assert two[..1] == [At(1, 98)] && two == [At(1, 98), At(2, 97)] && FOUR == FOUR[0..];
    assert Readable(two) by {
      ReadableSplit(FOUR, 2);
    }
    hide At, Hit, Taken, Charges, Readable, ScanResult;
    StopsAfter(pkg, FOUR, two);
  }

  // ----- a seek that misses a record

  const TEN_NINE := [At(10, 97), At(9, 97)]
  const TEN_NINE_HISTORY := [Insert(10, 97), Insert(9, 97)]

  lemma TenNineReached()
    ensures StoreAfter(TEN_NINE_HISTORY) == TEN_NINE && Readable(TEN_NINE)
    ensures Less(At(10, 97).key, At(9, 97).key)
  {
    assert Digits(10) == [49, 48] && Digits(9) == [57];
    AtOrder(10, 97, 9, 97);
    AtParts(10, 97);
    AtParts(9, 97);
    hide At, Insert, Less, KeyNumber, StoreAfter;
    var p, db := TEN_NINE_HISTORY, TEN_NINE;
    Nothing();
    Inserted([], [], 10, 97);
    assert [] + [p[0]] == [p[0]] && [] + [db[0]] == [db[0]];
    Inserted([p[0]], [db[0]], 9, 97);
    assert [p[0]] + [p[1]] == p && [db[0]] + [db[1]] == db;
  }

  // The scan for one field from record 9 seeks behind record 10, which is
  // never returned although it is in range.
  lemma SeekMissesTen()
    ensures var db, pkg := StoreAfter(TEN_NINE_HISTORY), ScanFor(9, 1, [97]);
            && ScanResult(db, pkg) == Ok([Hit(97)])
            && Taken(pkg, db) == [Hit(97), Hit(97)]
  {
    var pkg := ScanFor(9, 1, [97]);
    TenNineReached();
    TenNineTaken(pkg);
    NineStart();
    assert TEN_NINE == [At(10, 97), At(9, 97)] && TEN_NINE[1..] == [At(9, 97)] && [At(9, 97)][..0] == [];
    assert Readable(TEN_NINE[1..]) by {
      ReadableSplit(TEN_NINE, 1);
    }
    assert pkg.scanLength == 1;
    hide At, Hit, ScanFor, Taken, Charges, ScanStart, StoreAfter, Less, ScanResult, Readable;
    StopsAfter(pkg, TEN_NINE, [At(9, 97)]);
  }

  lemma TenNineTaken(pkg: Package)
    requires pkg == ScanFor(9, 1, [97])
    ensures Taken(pkg, [At(10, 97), At(9, 97)]) == [Hit(97), Hit(97)]
    ensures Taken(pkg, [At(9, 97)]) == [Hit(97)] && Charges(pkg, []) == 0
  {
    WantedLetter(pkg, [97], 97);
    assert pkg.key == 9;
    hide At, Hit, ScanFor, Wanted, Taken, LastRecord, Charges;
    Begin(pkg);
    StepAt(pkg, [], [At(10, 97)], 10, 97);
    StepAt(pkg, [At(10, 97)], [At(10, 97), At(9, 97)], 9, 97);
    StepAt(pkg, [], [At(9, 97)], 9, 97);
    assert [Hit(97)] + [Hit(97)] == [Hit(97), Hit(97)];
  }

  lemma NineStart()
    requires Less(At(10, 97).key, At(9, 97).key)
    ensures ScanStart(TEN_NINE, ScanFor(9, 1, [97])) == 1
  {
    var pkg := ScanFor(9, 1, [97]);
    PackedParts(9, [97], FIELD);
    assert pkg.kvPairs == [Pair(FIELD + [97], [])];
    var key := PackKey(9, FIELD + [97], []);
    assert key == At(9, 97).key;
    LessIrreflexive(key);
    hide Less, PackKey;
    assert TEN_NINE[1..][0] == At(9, 97);
  }

  // ----- a seek with a budget

  const THREE := [At(1, 97), At(2, 98), At(3, 98)]
  const THREE_HISTORY := [Insert(1, 97), Insert(2, 98), Insert(3, 98)]

  lemma ThreeOrder()
    ensures Less(At(1, 97).key, At(2, 98).key) && Less(At(1, 97).key, At(3, 98).key)
    ensures Less(At(2, 98).key, At(3, 98).key)
    ensures Readable(THREE)
  {
    hide At, Less, KeyNumber;
    OneDigit(1, 97, 2, 98);
    OneDigit(1, 97, 3, 98);
    OneDigit(2, 98, 3, 98);
    AtParts(1, 97);
    AtParts(2, 98);
    AtParts(3, 98);
  }

  lemma ThreeReached()
    ensures StoreAfter(THREE_HISTORY) == THREE && Readable(THREE)
  {
    ThreeOrder();
    hide At, Insert, Less, Readable, StoreAfter;
    var p, db := THREE_HISTORY, THREE;
    Nothing();
    Inserted([], [], 1, 97);
    assert [] + [p[0]] == [p[0]] && [] + [db[0]] == [db[0]];
    Inserted([p[0]], [db[0]], 2, 98);
    assert [p[0]] + [p[1]] == [p[0], p[1]] && [db[0]] + [db[1]] == [db[0], db[1]];
    Inserted([p[0], p[1]], [db[0], db[1]], 3, 98);
    assert [p[0], p[1]] + [p[2]] == p && [db[0], db[1]] + [db[2]] == db;
  }

  // The scan for field "b" of one record starts at record 2, for record 1 has
  // only a field "a". The first entry is free, the next one spends the budget.
  lemma SeekSkipsField()
    ensures ScanResult(StoreAfter(THREE_HISTORY), ScanFor(1, 1, [98])) == Ok([Hit(98), Hit(98)])
  {
    var pkg, two := ScanFor(1, 1, [98]), [At(2, 98), At(3, 98)];
    ThreeReached();
    ThreeStart();
    ThreeTaken(pkg);
    assert THREE[1..] == two && two[..1] == [At(2, 98)];
    assert Readable(two) by {
      ReadableSplit(THREE, 1);
    }
    assert pkg.scanLength == 1;
    hide At, Hit, ScanFor, Taken, Charges, ScanStart, StoreAfter, Less, ScanResult, Readable;
    StopsAfter(pkg, THREE, two);
  }

  lemma ThreeTaken(pkg: Package)
    requires pkg == ScanFor(1, 1, [98])
    ensures Taken(pkg, [At(2, 98), At(3, 98)]) == [Hit(98), Hit(98)]
    ensures Charges(pkg, [At(2, 98)]) == 0 && Charges(pkg, [At(2, 98), At(3, 98)]) == 1
  {
    WantedLetter(pkg, [98], 98);
    assert pkg.key == 1;
    hide At, Hit, ScanFor, Wanted, Taken, LastRecord, Charges;
    Begin(pkg);
    StepAt(pkg, [], [At(2, 98)], 2, 98);
    StepAt(pkg, [At(2, 98)], [At(2, 98), At(3, 98)], 3, 98);
    assert [Hit(98)] + [Hit(98)] == [Hit(98), Hit(98)];
  }

  lemma ThreeStart()
    ensures ScanStart(THREE, ScanFor(1, 1, [98])) == 1
  {
    var pkg := ScanFor(1, 1, [98]);
    PackedParts(1, [98], FIELD);
    assert pkg.kvPairs == [Pair(FIELD + [98], [])];
    var key := PackKey(1, FIELD + [98], []);
    assert key == At(1, 98).key;
    AtOrder(1, 97, 1, 98);
    AtOrder(2, 98, 1, 98);
    assert RecordBefore(1, 2) && !RecordBefore(2, 1);
    hide Less, PackKey, At;
    assert THREE[1..][0] == At(2, 98);
  }
}
