/** The derived list the widget renders (`filteredFiles`): the records whose
    name contains the search term, ignoring case, sorted by the selected key.
    `Array.prototype.sort` is a stable sort (ECMA-262, 10th edition, section
    22.1.3.27), so the sort is modelled as a stable insertion sort. */
module Query {
  import opened Seqs
  import opened Text
  import opened Records

  /** The sort keys the comparator distinguishes; any other selection falls
      to its `default` case. */
  datatype SortKey = ByName | BySize | ByDate | ByType | Unsorted

  /** The `sortBy` state string, read as a key. */
  function KeyOf(sortBy: string): SortKey
  {
    if sortBy == "name" then ByName
    else if sortBy == "size" then BySize
    else if sortBy == "date" then ByDate
    else if sortBy == "type" then ByType
    else Unsorted
  }

  /** The comparator handed to `sort`: negative when `a` goes first. Names and
      types ascend, sizes and upload times descend, other keys tie. */
  function Compare(key: SortKey, a: FileRecord, b: FileRecord): int
  {
    match key
    case ByName => LexCompare(a.name, b.name)
    case BySize => b.size - a.size
    case ByDate => b.uploadedAt - a.uploadedAt
    case ByType => LexCompare(a.mediaType, b.mediaType)
    case Unsorted => 0
  }

  /** Swapping the operands flips the sign of the comparison. */
  lemma CompareFlip(key: SortKey, a: FileRecord, b: FileRecord)
    ensures Compare(key, b, a) == -Compare(key, a, b)
  {
    match key
    case ByName => LexCompareFlip(a.name, b.name);
    case ByType => LexCompareFlip(a.mediaType, b.mediaType);
    case _ =>
  }

  /** "Not after" is transitive. */
  lemma CompareTrans(key: SortKey, a: FileRecord, b: FileRecord, c: FileRecord)
    requires Compare(key, a, b) <= 0 && Compare(key, b, c) <= 0
    ensures Compare(key, a, c) <= 0
  {
    match key
    case ByName => LexCompareTrans(a.name, b.name, c.name);
    case ByType => LexCompareTrans(a.mediaType, b.mediaType, c.mediaType);
    case _ =>
  }

  /** "Strictly before" followed by "not after" is "strictly before". */
  lemma CompareTransStrict(key: SortKey, a: FileRecord, b: FileRecord, c: FileRecord)
    requires Compare(key, a, b) < 0 && Compare(key, b, c) <= 0
    ensures Compare(key, a, c) < 0
  {
    match key
    case ByName => LexCompareTransStrict(a.name, b.name, c.name);
    case ByType => LexCompareTransStrict(a.mediaType, b.mediaType, c.mediaType);
    case _ =>
  }

  /** No record is placed after one the comparator puts after it. */
  predicate SortedBy(key: SortKey, s: seq<FileRecord>)
  {
    forall i, j :: 0 <= i < j < |s| ==> Compare(key, s[i], s[j]) <= 0
  }

  /** The records of `s` that tie with `x`, in their order in `s`. */
  function Ties(key: SortKey, s: seq<FileRecord>, x: FileRecord): seq<FileRecord>
  {
    if s == [] then []
    else (if Compare(key, s[0], x) == 0 then [s[0]] else []) + Ties(key, s[1..], x)
  }

  /** Places `x` after every record of `t` that does not come after it. */
  function Insert(key: SortKey, t: seq<FileRecord>, x: FileRecord): seq<FileRecord>
  {
    if t == [] then [x]
    else if Compare(key, x, t[0]) < 0 then [x] + t
    else [t[0]] + Insert(key, t[1..], x)
  }

  /** A stable sort by the comparator: each record is inserted after the
      records that came before it and tie with it. */
  function Sort(key: SortKey, s: seq<FileRecord>): seq<FileRecord>
  {
    if s == [] then [] else Insert(key, Sort(key, s[..|s| - 1]), s[|s| - 1])
  }

  lemma {:induction false} InsertCount(key: SortKey, t: seq<FileRecord>, x: FileRecord)
    ensures multiset(Insert(key, t, x)) == multiset(t) + multiset{x}
  {
    if t != [] && Compare(key, x, t[0]) >= 0 {
      InsertCount(key, t[1..], x);
      assert t == [t[0]] + t[1..];
    }
  }

  lemma PrependSorted(key: SortKey, x: FileRecord, t: seq<FileRecord>)
    requires SortedBy(key, t)
    requires forall y :: y in t ==> Compare(key, x, y) <= 0
    ensures SortedBy(key, [x] + t)
  {
    var r := [x] + t;
    forall i, j | 0 <= i < j < |r| ensures Compare(key, r[i], r[j]) <= 0 {
      if i == 0 {
        assert r[j] == t[j - 1];
      } else {
        assert r[i] == t[i - 1] && r[j] == t[j - 1];
      }
    }
  }

  lemma {:induction false} InsertSorted(key: SortKey, t: seq<FileRecord>, x: FileRecord)
    requires SortedBy(key, t)
    ensures SortedBy(key, Insert(key, t, x))
  {
    if t == [] {
    } else if Compare(key, x, t[0]) < 0 {
      forall y | y in t ensures Compare(key, x, y) <= 0 {
        var k :| 0 <= k < |t| && t[k] == y;
        if k > 0 { CompareTrans(key, x, t[0], y); }
      }
      PrependSorted(key, x, t);
    } else {
      var rest := t[1..];
      assert SortedBy(key, rest) by {
        forall i, j | 0 <= i < j < |rest| ensures Compare(key, rest[i], rest[j]) <= 0 {
          assert rest[i] == t[i + 1] && rest[j] == t[j + 1];
        }
      }
      InsertSorted(key, rest, x);
      InsertCount(key, rest, x);
      var tail := Insert(key, rest, x);
      forall z | z in tail ensures Compare(key, t[0], z) <= 0 {
        assert z in multiset(tail);
        if z == x {
          CompareFlip(key, x, t[0]);
        } else {
          assert z in multiset(rest);
          var k :| 0 <= k < |rest| && rest[k] == z;
          assert t[k + 1] == z;
        }
      }
      PrependSorted(key, t[0], tail);
    }
  }

  lemma {:induction false} TiesConcat(key: SortKey, a: seq<FileRecord>, b: seq<FileRecord>, x: FileRecord)
    ensures Ties(key, a + b, x) == Ties(key, a, x) + Ties(key, b, x)
  {
    if a == [] {
      assert a + b == b;
    } else {
      var ab := a + b;
      assert ab[0] == a[0] && ab[1..] == a[1..] + b;
      TiesConcat(key, a[1..], b, x);
      var head := if Compare(key, a[0], x) == 0 then [a[0]] else [];
      assert Ties(key, ab, x) == head + Ties(key, a[1..] + b, x);
      assert Ties(key, a, x) == head + Ties(key, a[1..], x);
    }
  }

  lemma {:induction false} TiesNone(key: SortKey, t: seq<FileRecord>, x: FileRecord)
    requires forall y :: y in t ==> Compare(key, y, x) != 0
    ensures Ties(key, t, x) == []
  {
    if t != [] {
      assert forall y :: y in t[1..] ==> y in t;
      TiesNone(key, t[1..], x);
    }
  }

  /** Nothing in a sorted list that starts strictly after `e` ties with a
      record `e` ties with. */
  lemma NoTiesAfter(key: SortKey, t: seq<FileRecord>, e: FileRecord, x: FileRecord)
    requires SortedBy(key, t) && t != []
    requires Compare(key, e, t[0]) < 0 && Compare(key, e, x) == 0
    ensures Ties(key, t, x) == []
  {
    forall y | y in t ensures Compare(key, y, x) != 0 {
      var k :| 0 <= k < |t| && t[k] == y;
      if k > 0 {
        CompareTransStrict(key, e, t[0], y);
      }
      CompareFlip(key, y, x);
      if Compare(key, y, x) == 0 {
        CompareTransStrict(key, e, y, x);
      }
    }
    TiesNone(key, t, x);
  }

  /** Inserting `e` adds it after the records that tie with it. */
  lemma {:induction false} InsertTies(key: SortKey, t: seq<FileRecord>, e: FileRecord, x: FileRecord)
    requires SortedBy(key, t)
    ensures Ties(key, Insert(key, t, e), x) ==
            Ties(key, t, x) + (if Compare(key, e, x) == 0 then [e] else [])
  {
    if t == [] {
    } else if Compare(key, e, t[0]) < 0 {
      assert Insert(key, t, e) == [e] + t;
      TiesConcat(key, [e], t, x);
      if Compare(key, e, x) == 0 {
        NoTiesAfter(key, t, e, x);
      }
    } else {
      var rest := t[1..];
      assert SortedBy(key, rest) by {
        forall i, j | 0 <= i < j < |rest| ensures Compare(key, rest[i], rest[j]) <= 0 {
          assert rest[i] == t[i + 1] && rest[j] == t[j + 1];
        }
      }
      InsertTies(key, rest, e, x);
      assert Insert(key, t, e) == [t[0]] + Insert(key, rest, e);
    }
  }

  /** The sort returns a permutation of its input. */
  lemma {:induction false} SortCount(key: SortKey, s: seq<FileRecord>)
    ensures multiset(Sort(key, s)) == multiset(s)
  {
    if s != [] {
      var p := s[..|s| - 1];
      SortCount(key, p);
      InsertCount(key, Sort(key, p), s[|s| - 1]);
      assert s == p + [s[|s| - 1]];
    }
  }

  /** The sort returns its input in comparator order. */
  lemma {:induction false} SortSorted(key: SortKey, s: seq<FileRecord>)
    ensures SortedBy(key, Sort(key, s))
  {
    if s != [] {
      SortSorted(key, s[..|s| - 1]);
      InsertSorted(key, Sort(key, s[..|s| - 1]), s[|s| - 1]);
    }
  }

  /** The sort is stable: records that tie keep their relative order. */
  lemma {:induction false} SortStable(key: SortKey, s: seq<FileRecord>, x: FileRecord)
    ensures Ties(key, Sort(key, s), x) == Ties(key, s, x)
  {
    if s != [] {
      var p, e := s[..|s| - 1], s[|s| - 1];
      SortStable(key, p, x);
      SortSorted(key, p);
      InsertTies(key, Sort(key, p), e, x);
      assert s == p + [e];
      TiesConcat(key, p, [e], x);
    }
  }

  lemma {:induction false} TiesUnsorted(s: seq<FileRecord>, x: FileRecord)
    ensures Ties(Unsorted, s, x) == s
  {
    if s != [] {
      TiesUnsorted(s[1..], x);
      assert s == [s[0]] + s[1..];
    }
  }

  /** A selection the comparator does not know keeps the filtered order. */
  lemma SortUnsortedIdentity(s: seq<FileRecord>)
    ensures Sort(Unsorted, s) == s
  {
    if s != [] {
      SortStable(Unsorted, s, s[0]);
      TiesUnsorted(s, s[0]);
      TiesUnsorted(Sort(Unsorted, s), s[0]);
    }
  }

  /** `file.name.toLowerCase().includes(searchTerm.toLowerCase())`. */
  predicate Matches(term: string, r: FileRecord)
  {
    Contains(Lower(r.name), Lower(term))
  }

  /** `files.filter(...)` with that test. */
  function Filter(files: seq<FileRecord>, term: string): seq<FileRecord>
  {
    if files == [] then []
    else (if Matches(term, files[0]) then [files[0]] else []) + Filter(files[1..], term)
  }

  /** Search ignores the case of the term as well as of the name: a term
      and its lower-cased form select the same records. */
  lemma {:induction false} FilterIgnoresTermCase(files: seq<FileRecord>, term: string)
    ensures Filter(files, Lower(term)) == Filter(files, term)
  {
    if files != [] {
      FilterIgnoresTermCase(files[1..], term);
      LowerIdempotent(term);
      assert Matches(Lower(term), files[0]) == Matches(term, files[0]);
    }
  }

  /** The filter keeps exactly the matching records, each as often as the
      catalog holds it. */
  lemma {:induction false} FilterCount(files: seq<FileRecord>, term: string)
    ensures forall r :: multiset(Filter(files, term))[r] ==
                        if Matches(term, r) then multiset(files)[r] else 0
  {
    if files != [] {
      var rest := files[1..];
      FilterCount(rest, term);
      assert files == [files[0]] + rest;
      var keep := if Matches(term, files[0]) then [files[0]] else [];
      assert multiset(Filter(files, term)) == multiset(keep) + multiset(Filter(rest, term));
      assert multiset(files) == multiset{files[0]} + multiset(rest);
    }
  }

  /** The filter keeps catalog order. */
  lemma {:induction false} FilterOrdered(files: seq<FileRecord>, term: string)
    ensures IsSubsequence(Filter(files, term), files)
  {
    if files != [] {
      var rest := files[1..];
      FilterOrdered(rest, term);
      assert files == [files[0]] + rest;
      SubsequenceCons(files[0], Filter(rest, term), rest);
      if Matches(term, files[0]) {
        assert Filter(files, term) == [files[0]] + Filter(rest, term);
      } else {
        assert Filter(files, term) == Filter(rest, term);
      }
    }
  }

  /** The empty search term keeps every record. */
  lemma {:induction false} FilterEmptyTerm(files: seq<FileRecord>)
    ensures Filter(files, "") == files
  {
    if files != [] {
      ContainsEmpty(Lower(files[0].name));
      FilterEmptyTerm(files[1..]);
      assert files == [files[0]] + files[1..];
    }
  }

  /** `filteredFiles`: filter first, then sort. */
  function View(files: seq<FileRecord>, term: string, sortBy: string): seq<FileRecord>
  {
    Sort(KeyOf(sortBy), Filter(files, term))
  }

  /** The view is a permutation of the matching records, in comparator order,
      with tying records in catalog order. */
  lemma ViewSpec(files: seq<FileRecord>, term: string, sortBy: string)
    ensures forall r :: multiset(View(files, term, sortBy))[r] ==
                        if Matches(term, r) then multiset(files)[r] else 0
    ensures SortedBy(KeyOf(sortBy), View(files, term, sortBy))
    ensures forall x :: Ties(KeyOf(sortBy), View(files, term, sortBy), x) ==
                        Ties(KeyOf(sortBy), Filter(files, term), x)
  {
    var key := KeyOf(sortBy);
    FilterCount(files, term);
    SortCount(key, Filter(files, term));
    SortSorted(key, Filter(files, term));
    forall x ensures Ties(key, View(files, term, sortBy), x) == Ties(key, Filter(files, term), x) {
      SortStable(key, Filter(files, term), x);
    }
  }

  /** With no search term and no known key the view is the catalog itself. */
  lemma ViewPassThrough(files: seq<FileRecord>, sortBy: string)
    requires sortBy !in ["name", "size", "date", "type"]
    ensures View(files, "", sortBy) == files
  {
    FilterEmptyTerm(files);
    SortUnsortedIdentity(files);
  }

  /** Two records named "b.txt" (10 bytes) and "a.txt" (20 bytes): by name the
      view lists a.txt first, and by size too, the larger first. */
  lemma SortExample(a: FileRecord, b: FileRecord)
    requires a.name == "a.txt" && a.size == 20
    requires b.name == "b.txt" && b.size == 10
    ensures View([b, a], "", "name") == [a, b]
    ensures View([b, a], "", "size") == [a, b]
  {
    FilterEmptyTerm([b, a]);
    assert [b, a][..1] == [b];
    assert [b][..0] == [];
    assert a.name[0] < b.name[0];
    assert LexCompare(a.name, b.name) == -1;
    forall key ensures Sort(key, [b]) == [b] {
      assert Sort(key, [b]) == Insert(key, Sort(key, []), b);
    }
    assert Sort(ByName, [b, a]) == Insert(ByName, [b], a);
    assert Sort(BySize, [b, a]) == Insert(BySize, [b], a);
  }
}
