/** internal/cli/format/table.go: the rows of `mcp-chain list`. */
module Table {
  import opened Prelude
  import opened Schema
  import opened StoreSpec
  import opened History

  const CONDITION_MAX_WIDTH := 48

  datatype Line = Header | Row(id: string, status: string, condition: string, created: int, resolved: Option<int>)

  // ----- the order: creation time, then id

  /** Go's string comparison: bytewise, a proper prefix first. */
  predicate StringLess(a: string, b: string) {
    if b == "" then false
    else if a == "" then true
    else if a[0] != b[0] then a[0] < b[0]
    else StringLess(a[1..], b[1..])
  }

  predicate Less(a: Record, b: Record) {
    if a.createdAt != b.createdAt then a.createdAt < b.createdAt else StringLess(a.id, b.id)
  }

  lemma {:induction false} StringLessTotal(a: string, b: string)
    ensures !(StringLess(a, b) && StringLess(b, a))
    ensures StringLess(a, b) || StringLess(b, a) || a == b
  {
    if a != "" && b != "" {
      StringLessTotal(a[1..], b[1..]);
      assert a == [a[0]] + a[1..] && b == [b[0]] + b[1..];
    }
  }

  lemma {:induction false} StringLessTransitive(a: string, b: string, c: string)
    requires StringLess(a, b) && StringLess(b, c)
    ensures StringLess(a, c)
  {
    if a != "" && a[0] == b[0] == c[0] {
      StringLessTransitive(a[1..], b[1..], c[1..]);
    }
  }

  lemma LessTransitive(a: Record, b: Record, c: Record)
    requires Less(a, b) && Less(b, c)
    ensures Less(a, c)
  {
    if a.createdAt == b.createdAt == c.createdAt {
      StringLessTransitive(a.id, b.id, c.id);
    }
  }

  lemma LessTotal(a: Record, b: Record)
    ensures !(Less(a, b) && Less(b, a))
    ensures a.id != b.id ==> Less(a, b) || Less(b, a)
  {
    StringLessTotal(a.id, b.id);
  }

  // ----- sort.SliceStable

  /** A record goes before the first one that is greater. */
  function Insert(r: Record, s: seq<Record>): seq<Record> {
    if s == [] || Less(r, s[0]) then [r] + s else [s[0]] + Insert(r, s[1..])
  }

  function StableSort(s: seq<Record>): seq<Record> {
    if s == [] then [] else Insert(s[|s| - 1], StableSort(s[..|s| - 1]))
  }

  lemma {:induction false} InsertPermutes(r: Record, s: seq<Record>)
    ensures multiset(Insert(r, s)) == multiset{r} + multiset(s)
  {
    if s == [] || Less(r, s[0]) {
      assert [r] + s == Insert(r, s);
    } else {
      InsertPermutes(r, s[1..]);
      assert s == [s[0]] + s[1..];
    }
  }

  lemma {:induction false} SortPermutes(s: seq<Record>)
    ensures multiset(StableSort(s)) == multiset(s) && |StableSort(s)| == |s|
  {
    if s != [] {
      SortPermutes(s[..|s| - 1]);
      InsertPermutes(s[|s| - 1], StableSort(s[..|s| - 1]));
      assert s == s[..|s| - 1] + [s[|s| - 1]];
      assert |multiset(StableSort(s))| == |multiset(s)|;
    }
  }

  predicate StrictlySorted(s: seq<Record>) {
    forall i, j | 0 <= i < j < |s| :: Less(s[i], s[j])
  }

  predicate DistinctIds(s: seq<Record>) {
    forall i, j | 0 <= i < j < |s| :: s[i].id != s[j].id
  }

  lemma {:induction false} InsertKeepsSorted(r: Record, s: seq<Record>)
    requires StrictlySorted(s) && forall i | 0 <= i < |s| :: s[i].id != r.id
    ensures StrictlySorted(Insert(r, s))
  {
    if s != [] {
      LessTotal(r, s[0]);
      if Less(r, s[0]) {
        forall j | 0 <= j < |s| ensures Less(r, s[j]) {
          if j > 0 {
            LessTransitive(r, s[0], s[j]);
          }
        }
      } else {
        InsertKeepsSorted(r, s[1..]);
        var t := Insert(r, s[1..]);
        InsertPermutes(r, s[1..]);
        forall j | 0 <= j < |t| ensures Less(s[0], t[j]) {
          assert t[j] in multiset(t);
          assert t[j] == r || t[j] in s[1..];
        }
      }
    }
  }

  lemma {:induction false} SortSorts(s: seq<Record>)
    requires DistinctIds(s)
    ensures StrictlySorted(StableSort(s))
  {
    if s != [] {
      var init := s[..|s| - 1];
      SortSorts(init);
      SortPermutes(init);
      forall i | 0 <= i < |init| ensures StableSort(init)[i].id != s[|s| - 1].id {
        assert StableSort(init)[i] in multiset(StableSort(init));
        assert StableSort(init)[i] in init;
      }
      InsertKeepsSorted(s[|s| - 1], StableSort(init));
    }
  }

  /** A set of records has one strictly sorted arrangement. */
  lemma {:induction false} SortedUnique(a: seq<Record>, b: seq<Record>)
    requires StrictlySorted(a) && StrictlySorted(b)
    requires forall r :: r in a <==> r in b
    ensures a == b
    decreases |a|
  {
    SameEmptiness(a, b);
    if a != [] {
      HeadOfSorted(a, b);
      forall r ensures r in a[1..] <==> r in b[1..] {
        TailOfSorted(a, r);
        TailOfSorted(b, r);
      }
      SortedUnique(a[1..], b[1..]);
      assert a == [a[0]] + a[1..] && b == [b[0]] + b[1..];
    }
  }

  lemma SameEmptiness(a: seq<Record>, b: seq<Record>)
    requires forall r :: r in a <==> r in b
    ensures a == [] <==> b == []
  {
    if a != [] {
      assert a[0] in b;
    }
    if b != [] {
      assert b[0] in a;
    }
  }

  lemma HeadOfSorted(a: seq<Record>, b: seq<Record>)
    requires StrictlySorted(a) && StrictlySorted(b) && a != [] && b != []
    requires forall r :: r in a <==> r in b
    ensures a[0] == b[0]
  {
    assert a[0] in a && b[0] in b;
    assert a[0] in b && b[0] in a;
    LessTotal(a[0], b[0]);
  }

  lemma TailOfSorted(a: seq<Record>, r: Record)
    requires StrictlySorted(a) && a != []
    ensures r in a[1..] <==> r in a && r != a[0]
  {
    LessTotal(a[0], a[0]);
    assert a == [a[0]] + a[1..];
  }

  // ----- the code

  function Truncate(s: string, max: nat): string {
    if |s| <= max then s
    else if max < 3 then s[..max]
    else s[..max - 3] + "..."
  }

  /** Never wider than the cap, and shortened only when it must be, to a prefix marked with dots. */
  lemma TruncateFits(s: string, max: nat)
    ensures |Truncate(s, max)| == if |s| <= max then |s| else max
    ensures Truncate(s, max) == s <==> |s| <= max
  {
  }

  function RowOf(r: Record): Line {
    Row(r.id, r.status, Truncate(r.condition, CONDITION_MAX_WIDTH), r.createdAt, r.resolvedAt)
  }

  function Rows(s: seq<Record>): seq<Line> {
    seq(|s|, i requires 0 <= i < |s| => RowOf(s[i]))
  }

  /** The library's in-place stable sort under the comparison of the table. */
  method SliceStable(a: array<Record>)
    modifies a
    ensures a[..] == StableSort(old(a[..]))
  {
    var sorted := StableSort(a[..]);
    SortPermutes(a[..]);
    forall i | 0 <= i < a.Length {
      a[i] := sorted[i];
    }
    assert a[..] == sorted;
  }

  /** The line shows the record: its fields in their columns, the condition cut to 45 characters and dots beyond 48. */
  predicate Shows(line: Line, r: Record) {
    && line.Row? && line.id == r.id && line.status == r.status && line.created == r.createdAt
    && line.resolved == r.resolvedAt
    && line.condition == if |r.condition| <= 48 then r.condition else r.condition[..45] + "..."
  }

  /** A header and then one line for each record, in some order. */
  ghost predicate Tabulates(out: seq<Line>, records: seq<Record>) {
    exists rows: seq<Record> ::
      && multiset(rows) == multiset(records)
      && |out| == |rows| + 1 && out[0] == Header && forall i | 0 <= i < |rows| :: Shows(out[i + 1], rows[i])
  }

  /** a comes before b as a text: a proper prefix, or smaller at the first character in which they differ. */
  predicate TextBefore(a: string, b: string) {
    exists k | 0 <= k <= |a| && k <= |b| ::
      a[..k] == b[..k] && ((k == |a| && k < |b|) || (k < |a| && k < |b| && a[k] < b[k]))
  }

  /** The rows after the header go up in creation time and, at equal times, in id. */
  predicate RowsAscend(out: seq<Line>) {
    forall i, j | 1 <= i < j < |out| ::
      && out[i].Row? && out[j].Row?
      && (out[i].created < out[j].created || (out[i].created == out[j].created && TextBefore(out[i].id, out[j].id)))
  }

  lemma {:induction false} StringLessIsTextBefore(a: string, b: string)
    ensures StringLess(a, b) <==> TextBefore(a, b)
  {
    if a != "" && b != "" && a[0] == b[0] {
      StringLessIsTextBefore(a[1..], b[1..]);
      if TextBefore(a[1..], b[1..]) {
        var k :| 0 <= k <= |a[1..]| && k <= |b[1..]| && a[1..][..k] == b[1..][..k]
                 && ((k == |a[1..]| && k < |b[1..]|) || (k < |a[1..]| && k < |b[1..]| && a[1..][k] < b[1..][k]));
        assert a[..k + 1] == [a[0]] + a[1..][..k] && b[..k + 1] == [b[0]] + b[1..][..k];
        assert a[..k + 1] == b[..k + 1];
      }
      if TextBefore(a, b) {
        var k :| 0 <= k <= |a| && k <= |b| && a[..k] == b[..k]
                 && ((k == |a| && k < |b|) || (k < |a| && k < |b| && a[k] < b[k]));
        assert a[1..][..k - 1] == a[..k][1..] && b[1..][..k - 1] == b[..k][1..];
      }
    } else if a != "" && b != "" {
      forall k | 1 <= k <= |a| && k <= |b| ensures a[..k] != b[..k] {
        assert a[..k][0] != b[..k][0];
      }
      assert a[..0] == b[..0];
    } else if b != "" {
      assert a[..0] == b[..0];
    }
  }

  /** The table of records with distinct ids ascends. */
  lemma SortedRowsAscend(records: seq<Record>)
    requires DistinctIds(records)
    ensures RowsAscend([Header] + Rows(StableSort(records)))
  {
    SortSorts(records);
    var sorted := StableSort(records);
    var out := [Header] + Rows(sorted);
    forall i, j | 1 <= i < j < |out|
      ensures
        && out[i].Row? && out[j].Row?
        && (out[i].created < out[j].created || (out[i].created == out[j].created && TextBefore(out[i].id, out[j].id)))
    {
      assert Less(sorted[i - 1], sorted[j - 1]);
      StringLessIsTextBefore(sorted[i - 1].id, sorted[j - 1].id);
    }
  }

  lemma RowsTabulate(records: seq<Record>)
    ensures Tabulates([Header] + Rows(StableSort(records)), records)
  {
    SortPermutes(records);
    var sorted, out := StableSort(records), [Header] + Rows(StableSort(records));
    assert forall i | 0 <= i < |sorted| :: Shows(out[i + 1], sorted[i]);
  }

  method WriteTable(records: seq<Record>) returns (out: seq<Line>)
    ensures out == if records == [] then [] else [Header] + Rows(StableSort(records))
    ensures records == [] ==> out == []
    ensures records != [] ==> Tabulates(out, records)
    ensures DistinctIds(records) ==> RowsAscend(out)
  {
    if |records| == 0 {
      return [];
    }
    var sorted := new Record[|records|](i requires 0 <= i < |records| => records[i]);
    assert sorted[..] == records;
    SliceStable(sorted);
    out := [Header];
    for i := 0 to sorted.Length
      invariant out == [Header] + Rows(sorted[..i])
    {
      out := out + [RowOf(sorted[i])];
      assert sorted[..i + 1] == sorted[..i] + [sorted[i]];
    }
    assert sorted[..sorted.Length] == sorted[..];
    RowsTabulate(records);
    if DistinctIds(records) {
      SortedRowsAscend(records);
    }
  }

  // ----- tables of reachable documents

  lemma EnumerationHasDistinctIds(st: State, out: seq<Record>)
    requires WellFormed(st) && Enumerates(out, st.records)
    ensures DistinctIds(out)
    ensures forall r :: r in out <==> r.id in st.records && st.records[r.id] == r
  {
    var keys :| Enumeration(keys, out, st.records);
    forall r ensures r in out <==> r.id in st.records && st.records[r.id] == r {
      if r in out {
        var i :| 0 <= i < |out| && out[i] == r;
        assert keys[i] in st.records;
      }
      if r.id in st.records && st.records[r.id] == r {
        assert r.id in keys;
        var i :| 0 <= i < |keys| && keys[i] == r.id;
        assert out[i] == r;
      }
    }
    forall i, j | 0 <= i < j < |out| ensures out[i].id != out[j].id {
      assert keys[i] in st.records && keys[j] in st.records && keys[i] != keys[j];
    }
  }

  lemma {:induction false} SortKeepsElements(s: seq<Record>)
    ensures forall r :: r in StableSort(s) <==> r in s
  {
    SortPermutes(s);
    forall r ensures r in StableSort(s) <==> r in s {
      assert r in multiset(StableSort(s)) <==> r in multiset(s);
    }
  }

  /**
   * The table of a well-formed document lists its records once each in strict order of creation time and id, and is the
   * same whatever order the map was iterated in.
   */
  lemma TableIgnoresIterationOrder(st: State, one: seq<Record>, two: seq<Record>)
    requires WellFormed(st) && Enumerates(one, st.records) && Enumerates(two, st.records)
    ensures multiset(StableSort(one)) == multiset(one) && StrictlySorted(StableSort(one))
    ensures StableSort(one) == StableSort(two)
  {
    EnumerationHasDistinctIds(st, one);
    EnumerationHasDistinctIds(st, two);
    SortPermutes(one);
    SortSorts(one);
    SortSorts(two);
    SortKeepsElements(one);
    SortKeepsElements(two);
    SortedUnique(StableSort(one), StableSort(two));
  }
}
