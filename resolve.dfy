/**
 `fetch_ko_pathway_mapping`: the KO-to-pathway edges, taken from a cached table when one is
 present and otherwise parsed from one `link/pathway` response per KO code.
 */
module Resolve {
  import opened Wrappers
  import opened Text
  import opened Responses
  import Seqs

  /** One row of the KO-to-pathway table. */
  datatype Edge = Edge(ko: string, pathwayId: string)

  /** `replace("path:", "")` on the second field of a link line. */
  function PathwayOf(field: string): string
  {
    RemoveAll(field, "path:")
  }

  /** A line names pathway `pw` when it has exactly two tab-separated fields and the second,
      without `path:`, is `pw` and lies in the `map` namespace. This is the test LineEdges
      makes, stated as a relation between a line and a pathway id. */
  predicate LinksTo(line: string, pw: string)
  {
    var parts := Split(line, '\t');
    |parts| == 2 && PathwayOf(parts[1]) == pw && StartsWith(pw, "map")
  }

  /** The edge one response line gives, if any. */
  function LineEdges(ko: string, line: string): (r: seq<Edge>)
    ensures |r| <= 1
  {
    var parts := Split(line, '\t');
    if |parts| == 2 && StartsWith(PathwayOf(parts[1]), "map") then [Edge(ko, PathwayOf(parts[1]))] else []
  }

  /** The lines of a usable body: the stripped text split at newlines. */
  function BodyLines(r: Response): seq<string>
  {
    Split(Strip(r.body), '\n')
  }

  /** The edges of one KO's response: none unless the response is usable, then one per
      accepted line, in line order. */
  function ResponseEdges(ko: string, r: Response): seq<Edge>
  {
    if Usable(r) then Seqs.FlatMap(BodyLines(r), line => LineEdges(ko, line)) else []
  }

  /** The live result: every code's edges, in the order of the codes. */
  function LiveEdges(kos: seq<string>, lookup: string -> Response): seq<Edge>
  {
    Seqs.FlatMap(kos, ko => ResponseEdges(ko, lookup(ko)))
  }

  /** What one response contributes: nothing for a failed or blank response; otherwise an
      edge of the queried code for exactly the lines that name a `map` pathway, and no more
      edges than lines. */
  lemma ResponseEdgesSpec(ko: string, r: Response)
    ensures !Usable(r) ==> ResponseEdges(ko, r) == []
    ensures Usable(r) ==> |ResponseEdges(ko, r)| <= CountChar(Strip(r.body), '\n') + 1
    ensures forall e :: e in ResponseEdges(ko, r) <==>
      e.ko == ko && Usable(r) && exists line :: line in BodyLines(r) && LinksTo(line, e.pathwayId)
  {
    if Usable(r) {
      var lines := BodyLines(r);
      var f := line => LineEdges(ko, line);
      SplitJoin(Strip(r.body), '\n');
      Seqs.FlatMapAtMostOne(lines, f);
      forall e ensures e in ResponseEdges(ko, r) <==>
        e.ko == ko && exists line :: line in lines && LinksTo(line, e.pathwayId)
      {
        Seqs.FlatMapMember(lines, f, e);
        if e in ResponseEdges(ko, r) {
          var i :| 0 <= i < |lines| && e in f(lines[i]);
          LineEdgesMember(ko, lines[i], e);
          assert lines[i] in lines;
        }
        if e.ko == ko && exists line :: line in lines && LinksTo(line, e.pathwayId) {
          var line :| line in lines && LinksTo(line, e.pathwayId);
          var i :| 0 <= i < |lines| && lines[i] == line;
          LineEdgesMember(ko, lines[i], e);
          assert e in f(lines[i]);
        }
      }
    }
  }

  /** A usable response gives one edge per line that names a `map` pathway, in line order:
      the m-th edge comes from line pos[m], the positions increase strictly, and every line
      that names a `map` pathway is among them. Repeated lines give repeated edges. */
  lemma ResponseEdgesPositions(ko: string, r: Response) returns (pos: seq<nat>)
    requires Usable(r)
    ensures |pos| == |ResponseEdges(ko, r)|
    ensures forall m :: 0 <= m < |pos| ==>
      pos[m] < |BodyLines(r)| && ResponseEdges(ko, r)[m].ko == ko &&
      LinksTo(BodyLines(r)[pos[m]], ResponseEdges(ko, r)[m].pathwayId)
    ensures forall m, n :: 0 <= m < n < |pos| ==> pos[m] < pos[n]
    ensures forall i, pw :: 0 <= i < |BodyLines(r)| && LinksTo(BodyLines(r)[i], pw) ==> i in pos
  {
    var lines := BodyLines(r);
    var f := line => LineEdges(ko, line);
    pos := Seqs.FlatMapPositions(lines, f);
    forall m | 0 <= m < |pos|
      ensures ResponseEdges(ko, r)[m].ko == ko && LinksTo(lines[pos[m]], ResponseEdges(ko, r)[m].pathwayId)
    {
      LineEdgesMember(ko, lines[pos[m]], ResponseEdges(ko, r)[m]);
    }
    forall i, pw | 0 <= i < |lines| && LinksTo(lines[i], pw) ensures i in pos {
      LineEdgesMember(ko, lines[i], Edge(ko, pw));
    }
  }

  lemma LineEdgesMember(ko: string, line: string, e: Edge)
    ensures e in LineEdges(ko, line) <==> e.ko == ko && LinksTo(line, e.pathwayId)
  {
  }

  /** Every edge names the code it was fetched for and a `map` pathway. */
  lemma ResponseEdgesWellFormed(ko: string, r: Response)
    ensures forall e :: e in ResponseEdges(ko, r) ==> e.ko == ko && StartsWith(e.pathwayId, "map")
  {
    ResponseEdgesSpec(ko, r);
  }

  /** A line `<field>\tpath:<pw>` gives an edge to `pw` exactly when `pw` is in the `map`
      namespace; `path:` is removed before the namespace test. */
  lemma PathLine(ko: string, field: string, pw: string)
    requires '\t' !in field && '\t' !in pw && ':' !in pw
    ensures LineEdges(ko, field + "\tpath:" + pw) == if StartsWith(pw, "map") then [Edge(ko, pw)] else []
  {
    var second := "path:" + pw;
    assert field + "\tpath:" + pw == field + ['\t'] + second;
    assert '\t' !in second by {
      assert forall i | 0 <= i < |second| :: (i < 5 && second[i] == "path:"[i]) || (i >= 5 && second[i] == pw[i - 5]);
    }
    SplitTwo(field, second, '\t');
    MissingCharNoOccurrence(pw, "path:", 4);
    RemoveAllAbsent(pw, "path:");
    assert second[..5] == "path:" && second[5..] == pw;
  }

  /** An edge is in the live result exactly when its code was queried and its code's
      response gives it. */
  lemma LiveEdgesMember(kos: seq<string>, lookup: string -> Response, e: Edge)
    ensures e in LiveEdges(kos, lookup) <==> e.ko in kos && e in ResponseEdges(e.ko, lookup(e.ko))
  {
    var f := ko => ResponseEdges(ko, lookup(ko));
    Seqs.FlatMapMember(kos, f, e);
    if e in LiveEdges(kos, lookup) {
      var i :| 0 <= i < |kos| && e in f(kos[i]);
      ResponseEdgesWellFormed(kos[i], lookup(kos[i]));
    }
    if e.ko in kos && e in ResponseEdges(e.ko, lookup(e.ko)) {
      var i :| 0 <= i < |kos| && kos[i] == e.ko;
      assert e in f(kos[i]);
    }
  }

  /** The live result over two runs of codes is the two results one after the other. */
  lemma LiveEdgesAppend(a: seq<string>, b: seq<string>, lookup: string -> Response)
    ensures LiveEdges(a + b, lookup) == LiveEdges(a, lookup) + LiveEdges(b, lookup)
  {
    Seqs.FlatMapAppend(a, b, ko => ResponseEdges(ko, lookup(ko)));
  }

  /** `fetch_ko_pathway_mapping`. With a cache the cached table is the result, whatever the
      codes, and no request is made; without one, every code is requested once, in order,
      and the result is the live edges of the codes. `requested` lists the codes sent to
      the service. */
  method FetchKoPathwayMapping(koList: seq<string>, cache: Option<seq<Edge>>, lookup: string -> Response)
    returns (edges: seq<Edge>, requested: seq<string>)
    ensures cache.Some? ==> edges == cache.value && requested == []
    ensures cache.None? ==> edges == LiveEdges(koList, lookup) && requested == koList
  {
    if cache.Some? {
      return cache.value, [];
    }
    var records: seq<Edge> := [];
    requested := [];
    var i := 0;
    while i < |koList|
      invariant 0 <= i <= |koList|
      invariant records == LiveEdges(koList[..i], lookup)
      invariant requested == koList[..i]
    {
      var ko := koList[i];
      var r := lookup(ko);
      requested := requested + [ko];
      ghost var before := records;
      ghost var f := line => LineEdges(ko, line);
      if r.status == 200 && Strip(r.body) != "" {
        var lines := Split(Strip(r.body), '\n');
        var j := 0;
        while j < |lines|
          invariant 0 <= j <= |lines|
          invariant records == before + Seqs.FlatMap(lines[..j], f)
        {
          var parts := Split(lines[j], '\t');
          ghost var added: seq<Edge> := [];
          if |parts| == 2 {
            var pw := PathwayOf(parts[1]);
            if StartsWith(pw, "map") {
              records := records + [Edge(ko, pw)];
              added := [Edge(ko, pw)];
            }
          }
          assert added == f(lines[j]);
          FlatMapStep(lines, j, f);
          j := j + 1;
        }
        assert lines[..j] == lines;
        assert Seqs.FlatMap(lines, f) == ResponseEdges(ko, r);
      } else {
        assert ResponseEdges(ko, r) == [];
      }
      assert records == before + ResponseEdges(ko, r);
      LiveEdgesStep(koList, i, lookup);
      i := i + 1;
    }
    assert koList[..i] == koList;
    edges := records;
  }

  lemma FlatMapStep<T, U>(s: seq<T>, j: nat, f: T -> seq<U>)
    requires j < |s|
    ensures Seqs.FlatMap(s[..j + 1], f) == Seqs.FlatMap(s[..j], f) + f(s[j])
  {
    assert s[..j + 1] == s[..j] + [s[j]];
    Seqs.FlatMapAppend(s[..j], [s[j]], f);
    assert [s[j]][1..] == [];
  }

  lemma LiveEdgesStep(kos: seq<string>, i: nat, lookup: string -> Response)
    requires i < |kos|
    ensures LiveEdges(kos[..i + 1], lookup) == LiveEdges(kos[..i], lookup) + ResponseEdges(kos[i], lookup(kos[i]))
  {
    FlatMapStep(kos, i, ko => ResponseEdges(ko, lookup(ko)));
  }
}
