/**
 `fetch_pathway_descriptions`: one `list/<pathway>` request per pathway id, giving the
 pathway's name or the fallback `Unknown`.
 */
module Describe {
  import opened Wrappers
  import opened Text
  import opened Responses

  /** A usable body without a tab has no second field: `split("\t")[1]` raises IndexError and
      the run stops there. */
  datatype DescribeError = MissingTab(pathwayId: string)

  const Fallback: string := "Unknown"

  /** The description of pathway `pw` from its response. */
  function Describe(pw: string, r: Response): Result<string, DescribeError>
  {
    if Usable(r) then
      var fields := Split(Strip(r.body), '\t');
      if |fields| >= 2 then Ok(fields[1]) else Err(MissingTab(pw))
    else Ok(Fallback)
  }

  /** A failed or blank response gives `Unknown`; a usable one fails exactly when its stripped
      body has no tab, and otherwise gives the text between its first tab and the next tab
      (or the end): the body is `pre`, a tab, the description, then `post`. */
  lemma DescribeSpec(pw: string, r: Response) returns (pre: string, post: string)
    ensures !Usable(r) ==> Describe(pw, r) == Ok(Fallback)
    ensures Usable(r) ==> (Describe(pw, r).Err? <==> '\t' !in Strip(r.body))
    ensures Describe(pw, r).Err? ==> Describe(pw, r).error == MissingTab(pw)
    ensures Usable(r) && Describe(pw, r).Ok? ==>
      Strip(r.body) == pre + ['\t'] + Describe(pw, r).value + post &&
      '\t' !in pre && '\t' !in Describe(pw, r).value && (post == [] || post[0] == '\t')
  {
    pre, post := [], [];
    if Usable(r) {
      var s := Strip(r.body);
      SplitJoin(s, '\t');
      CountCharPositive(s, '\t');
      if |Split(s, '\t')| >= 2 {
        pre, post := SecondPiece(s, '\t');
      }
    }
  }

  /** The description map of the ids so far, or the error of the first id whose usable
      response has no tab. */
  function DescriptionMap(ids: seq<string>, lookup: string -> Response): Result<map<string, string>, DescribeError>
  {
    if ids == [] then Ok(map[])
    else
      var last := ids[|ids| - 1];
      match DescriptionMap(ids[..|ids| - 1], lookup)
      case Err(e) => Err(e)
      case Ok(m) =>
        match Describe(last, lookup(last))
        case Err(e) => Err(e)
        case Ok(d) => Ok(m[last := d])
  }

  /** The map is total over the ids: it succeeds exactly when every id's response can be
      described, its keys are then exactly the ids, and each id maps to its own description. */
  lemma {:induction false} DescriptionMapOk(ids: seq<string>, lookup: string -> Response)
    ensures DescriptionMap(ids, lookup).Ok? <==>
      forall i :: 0 <= i < |ids| ==> Describe(ids[i], lookup(ids[i])).Ok?
    ensures DescriptionMap(ids, lookup).Ok? ==>
      (forall pw :: pw in DescriptionMap(ids, lookup).value <==> pw in ids) &&
      forall i :: 0 <= i < |ids| ==> Describe(ids[i], lookup(ids[i])) == Ok(DescriptionMap(ids, lookup).value[ids[i]])
  {
    if ids != [] {
      var p := ids[..|ids| - 1];
      DescriptionMapOk(p, lookup);
      assert forall i :: 0 <= i < |p| ==> p[i] == ids[i];
      assert forall pw :: pw in ids <==> pw in p || pw == ids[|ids| - 1];
    }
  }

  /** On failure the error names the first id, in order, whose response has no tab. */
  lemma {:induction false} DescriptionMapErr(ids: seq<string>, lookup: string -> Response)
    requires DescriptionMap(ids, lookup).Err?
    ensures exists k :: 0 <= k < |ids| && DescriptionMap(ids, lookup).error == MissingTab(ids[k]) &&
                        Describe(ids[k], lookup(ids[k])).Err? &&
                        forall j :: 0 <= j < k ==> Describe(ids[j], lookup(ids[j])).Ok?
  {
    var p := ids[..|ids| - 1];
    assert forall i :: 0 <= i < |p| ==> p[i] == ids[i];
    if DescriptionMap(p, lookup).Err? {
      DescriptionMapErr(p, lookup);
    } else {
      DescriptionMapOk(p, lookup);
      var last := ids[|ids| - 1];
      var _, _ := DescribeSpec(last, lookup(last));
      assert DescriptionMap(ids, lookup).error == MissingTab(ids[|ids| - 1]);
    }
  }

  /** `fetch_pathway_descriptions`: requests every id in order and fills the map; the first
      usable body without a tab stops the loop with that id's error. `requested` lists the
      ids sent to the service. */
  method FetchPathwayDescriptions(ids: seq<string>, lookup: string -> Response)
    returns (res: Result<map<string, string>, DescribeError>, requested: seq<string>)
    ensures res == DescriptionMap(ids, lookup)
    ensures |requested| <= |ids| && requested == ids[..|requested|]
    ensures res.Ok? ==> requested == ids
    ensures res.Err? ==> requested != [] && res.error == MissingTab(requested[|requested| - 1])
  {
    var descMap: map<string, string> := map[];
    requested := [];
    var i := 0;
    while i < |ids|
      invariant 0 <= i <= |ids|
      invariant DescriptionMap(ids[..i], lookup) == Ok(descMap)
      invariant requested == ids[..i]
    {
      var pw := ids[i];
      var r := lookup(pw);
      requested := requested + [pw];
      assert ids[..i + 1][..i] == ids[..i];
      if r.status == 200 && Strip(r.body) != "" {
        var fields := Split(Strip(r.body), '\t');
        if |fields| < 2 {
          PrefixError(ids, i + 1, lookup);
          return Err(MissingTab(pw)), requested;
        }
        descMap := descMap[pw := fields[1]];
      } else {
        descMap := descMap[pw := Fallback];
      }
      i := i + 1;
    }
    assert ids[..i] == ids;
    return Ok(descMap), requested;
  }

  /** Once a prefix of the ids fails, the whole sequence fails with the same error. */
  lemma {:induction false} PrefixError(ids: seq<string>, n: nat, lookup: string -> Response)
    requires n <= |ids| && DescriptionMap(ids[..n], lookup).Err?
    ensures DescriptionMap(ids, lookup) == DescriptionMap(ids[..n], lookup)
    decreases |ids| - n
  {
    if n < |ids| {
      assert ids[..n + 1][..n] == ids[..n];
      PrefixError(ids, n + 1, lookup);
    } else {
      assert ids[..n] == ids;
    }
  }
}
