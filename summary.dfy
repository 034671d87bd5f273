/**
 The summary `main` builds from the labelled mapping table: `groupby(...).size()` over
 (pathway id, description), the optional exclusion filter, `drop_duplicates` on the
 description, `sort_values` by count (descending) and `head(20)` for the chart.
 */
module Summary {
  import opened Wrappers
  import opened Text
  import Seqs

  /** One edge of the mapping table with its description attached: the group key. */
  datatype Label = Label(pathwayId: string, description: string)

  /** One row of the summary table. */
  datatype Row = Row(pathwayId: string, description: string, koCount: nat)

  function KeyOf(r: Row): Label
  {
    Label(r.pathwayId, r.description)
  }

  function DescriptionOf(r: Row): string
  {
    r.description
  }

  // ---------------------------------------------------------------------------------------
  // The order in which groupby lists its groups

  /** Lexicographic order on strings by code point, a proper prefix first. */
  predicate StrLess(a: string, b: string)
  {
    if a == [] then b != []
    else if b == [] then false
    else a[0] < b[0] || (a[0] == b[0] && StrLess(a[1..], b[1..]))
  }

  lemma {:induction false} StrLessIrreflexive(a: string)
    ensures !StrLess(a, a)
  {
    if a != [] {
      StrLessIrreflexive(a[1..]);
    }
  }

  lemma {:induction false} StrLessTransitive(a: string, b: string, c: string)
    requires StrLess(a, b) && StrLess(b, c)
    ensures StrLess(a, c)
  {
    if a != [] && a[0] == b[0] && b[0] == c[0] {
      StrLessTransitive(a[1..], b[1..], c[1..]);
    }
  }

  lemma {:induction false} StrLessTotal(a: string, b: string)
    ensures a == b || StrLess(a, b) || StrLess(b, a)
  {
    if a != [] && b != [] && a[0] == b[0] {
      StrLessTotal(a[1..], b[1..]);
      if a[1..] == b[1..] {
        assert a == [a[0]] + a[1..] && b == [b[0]] + b[1..];
      }
    }
  }

  /** Group keys are ordered by pathway id, then by description. */
  predicate KeyLess(x: Label, y: Label)
  {
    StrLess(x.pathwayId, y.pathwayId) ||
    (x.pathwayId == y.pathwayId && StrLess(x.description, y.description))
  }

  /** KeyLess is a strict total order. */
  lemma KeyLessOrder(x: Label, y: Label, z: Label)
    ensures !KeyLess(x, x)
    ensures KeyLess(x, y) && KeyLess(y, z) ==> KeyLess(x, z)
    ensures x == y || KeyLess(x, y) || KeyLess(y, x)
  {
    StrLessIrreflexive(x.pathwayId);
    StrLessIrreflexive(x.description);
    if KeyLess(x, y) && KeyLess(y, z) {
      if StrLess(x.pathwayId, y.pathwayId) && StrLess(y.pathwayId, z.pathwayId) {
        StrLessTransitive(x.pathwayId, y.pathwayId, z.pathwayId);
      } else if x.pathwayId == y.pathwayId && y.pathwayId == z.pathwayId {
        StrLessTransitive(x.description, y.description, z.description);
      }
    }
    StrLessTotal(x.pathwayId, y.pathwayId);
    StrLessTotal(x.description, y.description);
  }

  predicate Increasing(keys: seq<Label>)
  {
    forall i, j :: 0 <= i < j < |keys| ==> KeyLess(keys[i], keys[j])
  }

  /** Adds one key to an ordered key list, keeping a single copy of it. */
  function InsertKey(k: Label, keys: seq<Label>): seq<Label>
  {
    if keys == [] then [k]
    else if k == keys[0] then keys
    else if KeyLess(k, keys[0]) then [k] + keys
    else [keys[0]] + InsertKey(k, keys[1..])
  }

  /** The distinct group keys of the labelled table, in groupby's order. */
  function GroupKeys(labels: seq<Label>): seq<Label>
  {
    if labels == [] then [] else InsertKey(labels[|labels| - 1], GroupKeys(labels[..|labels| - 1]))
  }

  lemma {:induction false} InsertKeySpec(k: Label, keys: seq<Label>)
    requires Increasing(keys)
    ensures Increasing(InsertKey(k, keys))
    ensures forall x :: x in InsertKey(k, keys) <==> x == k || x in keys
  {
    if keys != [] && k != keys[0] {
      var r := InsertKey(k, keys);
      if KeyLess(k, keys[0]) {
        forall i, j | 0 <= i < j < |r| ensures KeyLess(r[i], r[j]) {
          if i == 0 && j > 1 {
            KeyLessOrder(k, keys[0], keys[j - 1]);
          }
        }
      } else {
        KeyLessOrder(k, keys[0], k);
        var tail := keys[1..];
        assert Increasing(tail) by {
          forall i, j | 0 <= i < j < |tail| ensures KeyLess(tail[i], tail[j]) {
            assert tail[i] == keys[i + 1] && tail[j] == keys[j + 1];
          }
        }
        InsertKeySpec(k, tail);
        var rest := InsertKey(k, tail);
        forall i, j | 0 <= i < j < |r| ensures KeyLess(r[i], r[j]) {
          if i == 0 {
            assert r[j] == rest[j - 1];
            if r[j] != k {
              assert rest[j - 1] in rest;
              var m :| 0 <= m < |tail| && tail[m] == r[j];
              assert keys[m + 1] == r[j];
            }
          } else {
            assert r[i] == rest[i - 1] && r[j] == rest[j - 1];
          }
        }
        assert forall x :: x in keys <==> x == keys[0] || x in tail by {
          assert keys == [keys[0]] + tail;
        }
      }
    }
  }

  /** groupby lists every distinct key of the table once, in increasing order. */
  lemma {:induction false} GroupKeysSpec(labels: seq<Label>)
    ensures Increasing(GroupKeys(labels))
    ensures forall x :: x in GroupKeys(labels) <==> x in labels
  {
    if labels != [] {
      var p := labels[..|labels| - 1];
      GroupKeysSpec(p);
      InsertKeySpec(labels[|labels| - 1], GroupKeys(p));
      assert labels == p + [labels[|labels| - 1]];
    }
  }

  lemma IncreasingDistinct(keys: seq<Label>)
    requires Increasing(keys)
    ensures forall i, j :: 0 <= i < j < |keys| ==> keys[i] != keys[j]
  {
    forall i, j | 0 <= i < j < |keys| ensures keys[i] != keys[j] {
      KeyLessOrder(keys[i], keys[i], keys[i]);
    }
  }

  // ---------------------------------------------------------------------------------------
  // groupby(["pathway_id", "pathway_description"]).size()

  /** One row per key, counting the labels equal to it. */
  function CountRows(keys: seq<Label>, labels: seq<Label>): seq<Row>
  {
    if keys == [] then []
    else
      var k := keys[|keys| - 1];
      CountRows(keys[..|keys| - 1], labels) + [Row(k.pathwayId, k.description, Seqs.Count(labels, k))]
  }

  /** The grouped table with its `KO_count` column. */
  function Aggregate(labels: seq<Label>): seq<Row>
  {
    CountRows(GroupKeys(labels), labels)
  }

  /** The sum of the `KO_count` column. */
  function Total(rows: seq<Row>): nat
  {
    if rows == [] then 0 else Total(rows[..|rows| - 1]) + rows[|rows| - 1].koCount
  }

  lemma {:induction false} CountRowsAt(keys: seq<Label>, labels: seq<Label>)
    ensures |CountRows(keys, labels)| == |keys|
    ensures forall i :: 0 <= i < |keys| ==>
      KeyOf(CountRows(keys, labels)[i]) == keys[i] &&
      CountRows(keys, labels)[i].koCount == Seqs.Count(labels, keys[i])
  {
    if keys != [] {
      var p := keys[..|keys| - 1];
      var k := keys[|keys| - 1];
      CountRowsAt(p, labels);
      var rows := CountRows(keys, labels);
      assert rows == CountRows(p, labels) + [Row(k.pathwayId, k.description, Seqs.Count(labels, k))];
      forall i | 0 <= i < |keys|
        ensures KeyOf(rows[i]) == keys[i] && rows[i].koCount == Seqs.Count(labels, keys[i])
      {
        if i < |p| {
          assert rows[i] == CountRows(p, labels)[i] && keys[i] == p[i];
        }
      }
    }
  }

  /** With no labels every group counts zero. */
  lemma {:induction false} TotalNoLabels(keys: seq<Label>)
    ensures Total(CountRows(keys, [])) == 0
  {
    if keys != [] {
      TotalNoLabels(keys[..|keys| - 1]);
    }
  }

  /** One more label adds one to the total for each copy of it among the keys. */
  lemma {:induction false} TotalAddLabel(keys: seq<Label>, labels: seq<Label>, x: Label)
    ensures Total(CountRows(keys, labels + [x])) == Total(CountRows(keys, labels)) + Seqs.Count(keys, x)
  {
    if keys != [] {
      var k := keys[|keys| - 1];
      TotalAddLabel(keys[..|keys| - 1], labels, x);
      assert (labels + [x])[..|labels|] == labels;
      var r := Row(k.pathwayId, k.description, Seqs.Count(labels + [x], k));
      var rows := CountRows(keys[..|keys| - 1], labels + [x]) + [r];
      assert rows[..|rows| - 1] == CountRows(keys[..|keys| - 1], labels + [x]);
      var rows0 := CountRows(keys[..|keys| - 1], labels) + [Row(k.pathwayId, k.description, Seqs.Count(labels, k))];
      assert rows0[..|rows0| - 1] == CountRows(keys[..|keys| - 1], labels);
    }
  }

  /** Over distinct keys that cover every label, the counts add up to the number of labels. */
  lemma {:induction false} TotalCounts(keys: seq<Label>, labels: seq<Label>)
    requires forall i, j :: 0 <= i < j < |keys| ==> keys[i] != keys[j]
    requires forall x :: x in labels ==> x in keys
    ensures Total(CountRows(keys, labels)) == |labels|
  {
    if labels == [] {
      TotalNoLabels(keys);
    } else {
      var p := labels[..|labels| - 1];
      var x := labels[|labels| - 1];
      assert labels == p + [x];
      TotalCounts(keys, p);
      TotalAddLabel(keys, p, x);
      Seqs.CountDistinct(keys, x);
    }
  }

  /** groupby/size gives one row per distinct (pathway id, description) pair, in increasing
      key order; each row counts the edges with its key, so at least one, and the counts add
      up to the number of edges. */
  lemma AggregateSpec(labels: seq<Label>)
    ensures forall i, j :: 0 <= i < j < |Aggregate(labels)| ==>
      KeyLess(KeyOf(Aggregate(labels)[i]), KeyOf(Aggregate(labels)[j]))
    ensures forall x :: x in labels <==> Seqs.HasKey(Aggregate(labels), KeyOf, x)
    ensures forall i :: 0 <= i < |Aggregate(labels)| ==>
      Aggregate(labels)[i].koCount == Seqs.Count(labels, KeyOf(Aggregate(labels)[i])) >= 1
    ensures Total(Aggregate(labels)) == |labels|
  {
    var keys := GroupKeys(labels);
    var rows := Aggregate(labels);
    GroupKeysSpec(labels);
    IncreasingDistinct(keys);
    CountRowsAt(keys, labels);
    TotalCounts(keys, labels);
    forall x ensures x in labels <==> Seqs.HasKey(rows, KeyOf, x) {
      if x in labels {
        var i :| 0 <= i < |keys| && keys[i] == x;
        assert KeyOf(rows[i]) == x;
      }
      if Seqs.HasKey(rows, KeyOf, x) {
        var i :| 0 <= i < |rows| && KeyOf(rows[i]) == x;
        assert keys[i] == x;
      }
    }
  }

  // ---------------------------------------------------------------------------------------
  // The exclusion filter

  /** The term one line of the exclusion file gives: the line stripped and lowercased, none
      for a blank line. */
  function TermOf(line: string): seq<string>
  {
    if Strip(line) == "" then [] else [Lower(Strip(line))]
  }

  /** The exclusion terms of the file's lines, in file order. */
  function ExclusionTerms(lines: seq<string>): seq<string>
  {
    Seqs.FlatMap(lines, TermOf)
  }

  /** Characters with a meaning of their own in a regular expression. */
  predicate RegexSpecial(c: char)
  {
    c in ".^$*+?{}[]\\|()"
  }

  /** A term that a regular expression matches as plain text. */
  predicate Literal(t: string)
  {
    forall i :: 0 <= i < |t| ==> !RegexSpecial(t[i])
  }

  /** The alternatives of `'|'.join(terms)`: joining no terms gives the empty pattern. */
  function Alternatives(terms: seq<string>): seq<string>
  {
    if terms == [] then [""] else terms
  }

  /** `str.lower().str.contains(pattern)` for one description. */
  predicate MatchesAny(description: string, terms: seq<string>)
  {
    exists t | t in Alternatives(terms) :: Contains(Lower(description), t)
  }

  /** The row itself if the pattern does not match its description, nothing otherwise. */
  function Survivor(r: Row, terms: seq<string>): seq<Row>
  {
    if MatchesAny(r.description, terms) then [] else [r]
  }

  /** Keeps, in order, the rows whose description the pattern does not match. */
  function Exclude(rows: seq<Row>, terms: seq<string>): seq<Row>
    requires forall t :: t in terms ==> Literal(t)
  {
    Seqs.FlatMap(rows, r => Survivor(r, terms))
  }

  /** Each term comes from one non-blank line, stripped and lowercased, so it is non-empty
      and has no upper-case ASCII letter. */
  lemma ExclusionTermsSpec(lines: seq<string>)
    ensures forall t :: t in ExclusionTerms(lines) <==>
      exists i :: 0 <= i < |lines| && Strip(lines[i]) != "" && t == Lower(Strip(lines[i]))
    ensures forall t :: t in ExclusionTerms(lines) ==> t != "" && Lower(t) == t
  {
    forall t ensures t in ExclusionTerms(lines) <==>
      exists i :: 0 <= i < |lines| && Strip(lines[i]) != "" && t == Lower(Strip(lines[i]))
    {
      Seqs.FlatMapMember(lines, TermOf, t);
    }
    forall t | t in ExclusionTerms(lines) ensures t != "" && Lower(t) == t {
      var i :| 0 <= i < |lines| && Strip(lines[i]) != "" && t == Lower(Strip(lines[i]));
      LowerIdempotent(Strip(lines[i]));
    }
  }

  /** The filter works row by row: filtering two parts gives the two filtered parts. */
  lemma ExcludeAppend(a: seq<Row>, b: seq<Row>, terms: seq<string>)
    requires forall t :: t in terms ==> Literal(t)
    ensures Exclude(a + b, terms) == Exclude(a, terms) + Exclude(b, terms)
  {
    Seqs.FlatMapAppend(a, b, r => Survivor(r, terms));
  }

  /** A row survives exactly when no term occurs in its lowercased description. */
  lemma {:induction false} ExcludeSpec(rows: seq<Row>, terms: seq<string>)
    requires forall t :: t in terms ==> Literal(t)
    ensures forall r :: r in Exclude(rows, terms) <==> r in rows && !MatchesAny(r.description, terms)
    ensures forall r, t :: r in Exclude(rows, terms) && t in terms ==> !Contains(Lower(r.description), t)
  {
    if rows != [] {
      ExcludeSpec(rows[1..], terms);
      assert forall r :: r in rows <==> r == rows[0] || r in rows[1..] by {
        assert rows == [rows[0]] + rows[1..];
      }
    }
  }

  /** An exclusion file with no terms gives the empty pattern, which matches every
      description, so no row survives. */
  lemma {:induction false} NoTermsDropsAll(rows: seq<Row>)
    ensures Exclude(rows, []) == []
  {
    if rows != [] {
      var d := Lower(rows[0].description);
      assert OccursAt(d, "", 0);
      assert Contains(d, "");
      assert "" in Alternatives([]);
      assert MatchesAny(rows[0].description, []);
      NoTermsDropsAll(rows[1..]);
    }
  }

  // ---------------------------------------------------------------------------------------
  // drop_duplicates(subset='pathway_description', keep='first')

  function DropDuplicateDescriptions(rows: seq<Row>): seq<Row>
  {
    Seqs.KeepFirst(rows, DescriptionOf)
  }

  /** Descriptions become pairwise distinct, every description of the input is still
      present, the kept rows are rows of the input, and each is the first row with its
      description, in input order. */
  lemma DropDuplicateDescriptionsSpec(rows: seq<Row>)
    ensures forall i, j :: 0 <= i < j < |DropDuplicateDescriptions(rows)| ==>
      DropDuplicateDescriptions(rows)[i].description != DropDuplicateDescriptions(rows)[j].description
    ensures forall i :: 0 <= i < |rows| ==>
      Seqs.HasKey(DropDuplicateDescriptions(rows), DescriptionOf, rows[i].description)
    ensures forall r :: r in DropDuplicateDescriptions(rows) ==> r in rows
    ensures DropDuplicateDescriptions(rows) == Seqs.FirstOccurrences(rows, DescriptionOf)
  {
    var kept := DropDuplicateDescriptions(rows);
    Seqs.KeepFirstIsFirstOccurrences(rows, DescriptionOf);
    forall r | r in kept ensures r in rows {
      Seqs.FirstOccurrencesMember(rows, DescriptionOf, r);
    }
    forall i, j | 0 <= i < j < |kept| ensures kept[i].description != kept[j].description {
      assert DescriptionOf(kept[i]) != DescriptionOf(kept[j]);
    }
    forall i | 0 <= i < |rows| ensures Seqs.HasKey(kept, DescriptionOf, rows[i].description) {
      assert rows[i].description == DescriptionOf(rows[i]);
    }
  }

  // ---------------------------------------------------------------------------------------
  // sort_values(by="KO_count", ascending=False)

  predicate NonIncreasing(rows: seq<Row>)
  {
    forall i, j :: 0 <= i < j < |rows| ==> rows[i].koCount >= rows[j].koCount
  }

  function InsertByCount(r: Row, sorted: seq<Row>): seq<Row>
  {
    if sorted == [] || r.koCount >= sorted[0].koCount then [r] + sorted
    else [sorted[0]] + InsertByCount(r, sorted[1..])
  }

  /** The rows by descending count. The order among rows of equal count is this model's
      own; the script's sort does not fix it. */
  function SortByCount(rows: seq<Row>): seq<Row>
  {
    if rows == [] then [] else InsertByCount(rows[0], SortByCount(rows[1..]))
  }

  lemma {:induction false} InsertByCountSpec(r: Row, sorted: seq<Row>)
    requires NonIncreasing(sorted)
    ensures NonIncreasing(InsertByCount(r, sorted))
    ensures multiset(InsertByCount(r, sorted)) == multiset(sorted) + multiset{r}
  {
    InsertByCountSorted(r, sorted);
    InsertByCountPermutes(r, sorted);
  }

  lemma {:induction false} InsertByCountSorted(r: Row, sorted: seq<Row>)
    requires NonIncreasing(sorted)
    ensures NonIncreasing(InsertByCount(r, sorted))
  {
    if sorted != [] && r.koCount < sorted[0].koCount {
      var tail := sorted[1..];
      assert NonIncreasing(tail) by {
        forall i, j | 0 <= i < j < |tail| ensures tail[i].koCount >= tail[j].koCount {
          assert tail[i] == sorted[i + 1] && tail[j] == sorted[j + 1];
        }
      }
      InsertByCountSorted(r, tail);
      var rest := InsertByCount(r, tail);
      var res := InsertByCount(r, sorted);
      forall i, j | 0 <= i < j < |res| ensures res[i].koCount >= res[j].koCount {
        if i == 0 {
          var x := rest[j - 1];
          assert res[j] == x;
          InsertByCountMember(r, tail, x);
          if x != r {
            var m :| 0 <= m < |tail| && tail[m] == x;
            assert sorted[m + 1] == x;
          }
        } else {
          assert res[i] == rest[i - 1] && res[j] == rest[j - 1];
        }
      }
    }
  }

  lemma {:induction false} InsertByCountPermutes(r: Row, sorted: seq<Row>)
    ensures multiset(InsertByCount(r, sorted)) == multiset(sorted) + multiset{r}
  {
    if sorted != [] && r.koCount < sorted[0].koCount {
      InsertByCountPermutes(r, sorted[1..]);
      assert sorted == [sorted[0]] + sorted[1..];
    }
  }

  /** The sort orders the rows by non-increasing count and keeps each row exactly as often
      as it occurs. */
  lemma {:induction false} SortByCountSpec(rows: seq<Row>)
    ensures NonIncreasing(SortByCount(rows))
    ensures multiset(SortByCount(rows)) == multiset(rows)
  {
    if rows != [] {
      SortByCountSpec(rows[1..]);
      InsertByCountSpec(rows[0], SortByCount(rows[1..]));
      assert rows == [rows[0]] + rows[1..];
    }
  }

  predicate DistinctDescriptions(rows: seq<Row>)
  {
    forall i, j :: 0 <= i < j < |rows| ==> rows[i].description != rows[j].description
  }

  lemma {:induction false} InsertByCountDistinct(r: Row, sorted: seq<Row>)
    requires DistinctDescriptions(sorted)
    requires forall x :: x in sorted ==> x.description != r.description
    ensures DistinctDescriptions(InsertByCount(r, sorted))
  {
    var res := InsertByCount(r, sorted);
    if sorted == [] || r.koCount >= sorted[0].koCount {
      forall i, j | 0 <= i < j < |res| ensures res[i].description != res[j].description {
        assert res[j] == sorted[j - 1];
        if i > 0 {
          assert res[i] == sorted[i - 1];
        }
      }
    } else {
      var tail := sorted[1..];
      assert forall x :: x in tail ==> x in sorted;
      assert DistinctDescriptions(tail) by {
        forall i, j | 0 <= i < j < |tail| ensures tail[i].description != tail[j].description {
          assert tail[i] == sorted[i + 1] && tail[j] == sorted[j + 1];
        }
      }
      InsertByCountDistinct(r, tail);
      var rest := InsertByCount(r, tail);
      forall i, j | 0 <= i < j < |res| ensures res[i].description != res[j].description {
        assert res[j] == rest[j - 1];
        if i == 0 {
          InsertByCountMember(r, tail, rest[j - 1]);
          if rest[j - 1] != r {
            var m :| 0 <= m < |tail| && tail[m] == rest[j - 1];
            assert sorted[m + 1] == rest[j - 1];
          }
        } else {
          assert res[i] == rest[i - 1];
        }
      }
    }
  }

  lemma {:induction false} InsertByCountMember(r: Row, sorted: seq<Row>, x: Row)
    requires x in InsertByCount(r, sorted)
    ensures x == r || x in sorted
  {
    if sorted != [] && r.koCount < sorted[0].koCount && x != sorted[0] {
      InsertByCountMember(r, sorted[1..], x);
    }
  }

  /** Sorting neither merges nor duplicates rows, so distinct descriptions stay distinct. */
  lemma {:induction false} SortByCountDistinct(rows: seq<Row>)
    requires DistinctDescriptions(rows)
    ensures DistinctDescriptions(SortByCount(rows))
  {
    if rows != [] {
      var tail := rows[1..];
      assert DistinctDescriptions(tail) by {
        forall i, j | 0 <= i < j < |tail| ensures tail[i].description != tail[j].description {
          assert tail[i] == rows[i + 1] && tail[j] == rows[j + 1];
        }
      }
      SortByCountDistinct(tail);
      SortByCountSpec(tail);
      forall x | x in SortByCount(tail) ensures x.description != rows[0].description {
        assert x in multiset(tail);
        var m :| 0 <= m < |tail| && tail[m] == x;
        assert rows[m + 1] == x;
      }
      InsertByCountDistinct(rows[0], SortByCount(tail));
    }
  }

  // ---------------------------------------------------------------------------------------
  // The whole summary step

  /** The exclusion file's lines give terms that a regular expression reads as plain text. */
  predicate LiteralTerms(excludeLines: Option<seq<string>>)
  {
    excludeLines.Some? ==> forall t :: t in ExclusionTerms(excludeLines.value) ==> Literal(t)
  }

  /** The grouped table after the exclusion filter, when an exclusion file is given. */
  function ApplyExclusion(rows: seq<Row>, excludeLines: Option<seq<string>>): seq<Row>
    requires LiteralTerms(excludeLines)
  {
    if excludeLines.Some? then Exclude(rows, ExclusionTerms(excludeLines.value)) else rows
  }

  /** The summary table: grouped, filtered, deduplicated by description and sorted by count. */
  function Summarise(labels: seq<Label>, excludeLines: Option<seq<string>>): seq<Row>
    requires LiteralTerms(excludeLines)
  {
    SortByCount(DropDuplicateDescriptions(ApplyExclusion(Aggregate(labels), excludeLines)))
  }

  /** The first `n` rows, or all of them when there are fewer. */
  function Head(rows: seq<Row>, n: nat): seq<Row>
  {
    if |rows| <= n then rows else rows[..n]
  }

  /** Sorting keeps exactly the rows it is given. */
  lemma SortByCountMember(rows: seq<Row>, r: Row)
    ensures r in SortByCount(rows) <==> r in rows
  {
    SortByCountSpec(rows);
    assert r in SortByCount(rows) <==> r in multiset(SortByCount(rows));
  }

  /** Dedup and sort only ever drop or move rows, so the summary's rows are filtered rows. */
  lemma SummaryRowsFiltered(labels: seq<Label>, excludeLines: Option<seq<string>>, r: Row)
    requires LiteralTerms(excludeLines)
    requires r in Summarise(labels, excludeLines)
    ensures r in ApplyExclusion(Aggregate(labels), excludeLines)
  {
    var filtered := ApplyExclusion(Aggregate(labels), excludeLines);
    SortByCountMember(DropDuplicateDescriptions(filtered), r);
    DropDuplicateDescriptionsSpec(filtered);
  }

  /** A filtered row is a group of the table that the exclusion terms do not match. */
  lemma FilteredRow(labels: seq<Label>, excludeLines: Option<seq<string>>, r: Row)
    requires LiteralTerms(excludeLines)
    requires r in ApplyExclusion(Aggregate(labels), excludeLines)
    ensures r in Aggregate(labels) && r.koCount == Seqs.Count(labels, KeyOf(r)) >= 1
    ensures excludeLines.Some? ==> forall t :: t in ExclusionTerms(excludeLines.value) ==>
      !Contains(Lower(r.description), t)
  {
    if excludeLines.Some? {
      ExcludeSpec(Aggregate(labels), ExclusionTerms(excludeLines.value));
    }
    AggregateSpec(labels);
    var i :| 0 <= i < |Aggregate(labels)| && Aggregate(labels)[i] == r;
  }

  /** Every description the filter lets through is still in the summary. */
  lemma SummaryComplete(labels: seq<Label>, excludeLines: Option<seq<string>>, r: Row)
    requires LiteralTerms(excludeLines)
    requires r in ApplyExclusion(Aggregate(labels), excludeLines)
    ensures Seqs.HasKey(Summarise(labels, excludeLines), DescriptionOf, r.description)
  {
    var filtered := ApplyExclusion(Aggregate(labels), excludeLines);
    var kept := DropDuplicateDescriptions(filtered);
    DropDuplicateDescriptionsSpec(filtered);
    var i :| 0 <= i < |filtered| && filtered[i] == r;
    var k :| 0 <= k < |kept| && DescriptionOf(kept[k]) == r.description;
    SortByCountMember(kept, kept[k]);
    var sorted := SortByCount(kept);
    var m :| 0 <= m < |sorted| && sorted[m] == kept[k];
    assert DescriptionOf(sorted[m]) == r.description;
  }

  /** The exclusion filter lets a description through: there is no exclusion file, or the
      pattern does not match the description. */
  predicate Passes(description: string, excludeLines: Option<seq<string>>)
  {
    excludeLines.None? || !MatchesAny(description, ExclusionTerms(excludeLines.value))
  }

  /** Every label whose description the filter lets through has its description in the
      summary. */
  lemma SummaryCoversLabel(labels: seq<Label>, excludeLines: Option<seq<string>>, x: Label)
    requires LiteralTerms(excludeLines)
    requires x in labels && Passes(x.description, excludeLines)
    ensures Seqs.HasKey(Summarise(labels, excludeLines), DescriptionOf, x.description)
  {
    var grouped := Aggregate(labels);
    AggregateSpec(labels);
    var i :| 0 <= i < |grouped| && KeyOf(grouped[i]) == x;
    if excludeLines.Some? {
      ExcludeSpec(grouped, ExclusionTerms(excludeLines.value));
    }
    assert grouped[i] in ApplyExclusion(grouped, excludeLines);
    SummaryComplete(labels, excludeLines, grouped[i]);
  }

  /** Rows listed in strictly increasing group-key order. */
  predicate RowsIncreasing(rows: seq<Row>)
  {
    forall i, j :: 0 <= i < j < |rows| ==> KeyLess(KeyOf(rows[i]), KeyOf(rows[j]))
  }

  /** The filter keeps the order of the rows it lets through. */
  lemma ExcludeIncreasing(rows: seq<Row>, terms: seq<string>)
    requires forall t :: t in terms ==> Literal(t)
    requires RowsIncreasing(rows)
    ensures RowsIncreasing(Exclude(rows, terms))
  {
    var f := r => Survivor(r, terms);
    var res := Exclude(rows, terms);
    var pos := Seqs.FlatMapPositions(rows, f);
    forall m | 0 <= m < |res| ensures res[m] == rows[pos[m]] {
      assert f(rows[pos[m]]) == [res[m]];
    }
    forall i, j | 0 <= i < j < |res| ensures KeyLess(KeyOf(res[i]), KeyOf(res[j])) {
      assert pos[i] < pos[j];
    }
  }

  /** The grouped table after the filter is still in increasing key order. */
  lemma FilteredIncreasing(labels: seq<Label>, excludeLines: Option<seq<string>>)
    requires LiteralTerms(excludeLines)
    ensures RowsIncreasing(ApplyExclusion(Aggregate(labels), excludeLines))
  {
    AggregateSpec(labels);
    if excludeLines.Some? {
      ExcludeIncreasing(Aggregate(labels), ExclusionTerms(excludeLines.value));
    }
  }

  /** The summary holds, in some order, exactly the first filtered group of every
      description, as `drop_duplicates(keep='first')` keeps it. */
  lemma SummaryKeepsFirst(labels: seq<Label>, excludeLines: Option<seq<string>>)
    requires LiteralTerms(excludeLines)
    ensures multiset(Summarise(labels, excludeLines)) ==
      multiset(Seqs.FirstOccurrences(ApplyExclusion(Aggregate(labels), excludeLines), DescriptionOf))
  {
    var filtered := ApplyExclusion(Aggregate(labels), excludeLines);
    DropDuplicateDescriptionsSpec(filtered);
    SortByCountSpec(DropDuplicateDescriptions(filtered));
  }

  /** The row kept for a description carries the smallest pathway id that any label with
      that description has: groupby lists keys in order and the first one is kept. */
  lemma SummaryFirstKey(labels: seq<Label>, excludeLines: Option<seq<string>>, r: Row, x: Label)
    requires LiteralTerms(excludeLines)
    requires r in Summarise(labels, excludeLines)
    requires x in labels && x.description == r.description
    ensures !StrLess(x.pathwayId, r.pathwayId)
  {
    var grouped := Aggregate(labels);
    var filtered := ApplyExclusion(grouped, excludeLines);
    var k := KeptPosition(labels, excludeLines, r);
    var g := FilteredGroup(labels, excludeLines, r, x);
    var j :| 0 <= j < |filtered| && filtered[j] == g;
    FilteredIncreasing(labels, excludeLines);
    FirstHasLeastKey(filtered, j, k);
  }

  /** A summary row is a filtered group that is the first with its description. */
  lemma KeptPosition(labels: seq<Label>, excludeLines: Option<seq<string>>, r: Row) returns (k: nat)
    requires LiteralTerms(excludeLines)
    requires r in Summarise(labels, excludeLines)
    ensures k < |ApplyExclusion(Aggregate(labels), excludeLines)|
    ensures ApplyExclusion(Aggregate(labels), excludeLines)[k] == r
    ensures Seqs.IsFirst(ApplyExclusion(Aggregate(labels), excludeLines), DescriptionOf, k)
  {
    var filtered := ApplyExclusion(Aggregate(labels), excludeLines);
    var fo := Seqs.FirstOccurrences(filtered, DescriptionOf);
    SummaryKeepsFirst(labels, excludeLines);
    assert r in multiset(Summarise(labels, excludeLines));
    assert r in fo;
    var pos := Seqs.FirstOccurrencesPositions(filtered, DescriptionOf);
    var m :| 0 <= m < |fo| && fo[m] == r;
    k := pos[m];
  }

  /** The group of a label whose description a summary row has is let through by the
      filter as well. */
  lemma FilteredGroup(labels: seq<Label>, excludeLines: Option<seq<string>>, r: Row, x: Label) returns (g: Row)
    requires LiteralTerms(excludeLines)
    requires r in ApplyExclusion(Aggregate(labels), excludeLines)
    requires x in labels && x.description == r.description
    ensures g in ApplyExclusion(Aggregate(labels), excludeLines) && KeyOf(g) == x
  {
    var grouped := Aggregate(labels);
    AggregateSpec(labels);
    var gi :| 0 <= gi < |grouped| && KeyOf(grouped[gi]) == x;
    g := grouped[gi];
    if excludeLines.Some? {
      ExcludeSpec(grouped, ExclusionTerms(excludeLines.value));
    }
  }

  /** In rows of increasing key, the first row with a description has the least key among
      the rows with that description. */
  lemma FirstHasLeastKey(rows: seq<Row>, j: nat, k: nat)
    requires RowsIncreasing(rows)
    requires j < |rows| && k < |rows| && Seqs.IsFirst(rows, DescriptionOf, k)
    requires rows[j].description == rows[k].description
    ensures !StrLess(rows[j].pathwayId, rows[k].pathwayId)
  {
    KeyLessOrder(KeyOf(rows[j]), KeyOf(rows[k]), KeyOf(rows[j]));
    if j < k {
      assert false;
    }
  }

  /** What the saved summary guarantees: every row is a group of the labelled table with
      its true count; descriptions are distinct and counts non-increasing; no excluded term
      occurs in a lowercased description, and no row survives an empty exclusion file; and
      every group that the filter lets through keeps its description in the table. */
  lemma SummariseSpec(labels: seq<Label>, excludeLines: Option<seq<string>>)
    requires LiteralTerms(excludeLines)
    ensures forall r :: r in Summarise(labels, excludeLines) ==>
      r in Aggregate(labels) && r.koCount == Seqs.Count(labels, KeyOf(r)) >= 1
    ensures DistinctDescriptions(Summarise(labels, excludeLines))
    ensures NonIncreasing(Summarise(labels, excludeLines))
    ensures excludeLines.Some? ==> forall r, t ::
      r in Summarise(labels, excludeLines) && t in ExclusionTerms(excludeLines.value) ==>
        !Contains(Lower(r.description), t)
    ensures excludeLines.Some? && ExclusionTerms(excludeLines.value) == [] ==> Summarise(labels, excludeLines) == []
    ensures forall r :: r in ApplyExclusion(Aggregate(labels), excludeLines) ==>
      Seqs.HasKey(Summarise(labels, excludeLines), DescriptionOf, r.description)
    ensures multiset(Summarise(labels, excludeLines)) ==
      multiset(Seqs.FirstOccurrences(ApplyExclusion(Aggregate(labels), excludeLines), DescriptionOf))
    ensures forall r, x :: r in Summarise(labels, excludeLines) && x in labels && x.description == r.description ==>
      !StrLess(x.pathwayId, r.pathwayId)
  {
    var grouped := Aggregate(labels);
    var filtered := ApplyExclusion(grouped, excludeLines);
    var kept := DropDuplicateDescriptions(filtered);
    forall r | r in Summarise(labels, excludeLines)
      ensures r in grouped && r.koCount == Seqs.Count(labels, KeyOf(r)) >= 1
      ensures excludeLines.Some? ==> forall t :: t in ExclusionTerms(excludeLines.value) ==>
        !Contains(Lower(r.description), t)
    {
      SummaryRowsFiltered(labels, excludeLines, r);
      FilteredRow(labels, excludeLines, r);
    }
    DropDuplicateDescriptionsSpec(filtered);
    SortByCountDistinct(kept);
    SortByCountSpec(kept);
    if excludeLines.Some? {
      ExcludeSpec(grouped, ExclusionTerms(excludeLines.value));
      if ExclusionTerms(excludeLines.value) == [] {
        NoTermsDropsAll(grouped);
      }
    }
    forall r | r in filtered
      ensures Seqs.HasKey(Summarise(labels, excludeLines), DescriptionOf, r.description)
    {
      SummaryComplete(labels, excludeLines, r);
    }
    SummaryKeepsFirst(labels, excludeLines);
    forall r, x | r in Summarise(labels, excludeLines) && x in labels && x.description == r.description
      ensures !StrLess(x.pathwayId, r.pathwayId)
    {
      SummaryFirstKey(labels, excludeLines, r, x);
    }
  }
}
