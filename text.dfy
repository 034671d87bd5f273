/**
 Python `str` operations the pipeline relies on, over `string` (a `seq<char>`):
 `split` with a one-character separator, `strip()` without arguments,
 `replace(pat, "")`, `startswith`, ASCII `lower()` and substring search.
 */
module Text {

  /** The characters for which Python's `str.isspace()` holds, so `str.strip()` removes them. */
  predicate IsSpace(c: char)
  {
    c == ' ' || ('\t' <= c <= '\r') || ('\U{1C}' <= c <= '\U{1F}') ||
    c == '\U{85}' || c == '\U{A0}' || c == '\U{1680}' || ('\U{2000}' <= c <= '\U{200A}') ||
    c == '\U{2028}' || c == '\U{2029}' || c == '\U{202F}' || c == '\U{205F}' || c == '\U{3000}'
  }

  predicate AllSpace(s: string)
  {
    forall i :: 0 <= i < |s| ==> IsSpace(s[i])
  }

  /** `str.split(sep)`: the pieces between separators, one more piece than separators. */
  function Split(s: string, sep: char): (pieces: seq<string>)
    ensures |pieces| >= 1
  {
    if s == [] then [""]
    else
      var rest := Split(s[1..], sep);
      if s[0] == sep then [""] + rest else [[s[0]] + rest[0]] + rest[1..]
  }

  /** `sep.join(pieces)`, the inverse of Split. */
  function Join(pieces: seq<string>, sep: char): string
    requires |pieces| >= 1
  {
    if |pieces| == 1 then pieces[0] else pieces[0] + [sep] + Join(pieces[1..], sep)
  }

  function CountChar(s: string, c: char): nat
  {
    if s == [] then 0 else (if s[0] == c then 1 else 0) + CountChar(s[1..], c)
  }

  /** CountChar counts every occurrence, so it is positive exactly when the character occurs. */
  lemma {:induction false} CountCharPositive(s: string, c: char)
    ensures CountChar(s, c) > 0 <==> c in s
  {
    if s != [] {
      CountCharPositive(s[1..], c);
      assert s == [s[0]] + s[1..];
    }
  }

  /** Split cuts at every separator and nowhere else: joining the pieces gives the text back,
      no piece holds the separator, and there is one more piece than separators. */
  lemma {:induction false} SplitJoin(s: string, sep: char)
    ensures Join(Split(s, sep), sep) == s
    ensures forall i :: 0 <= i < |Split(s, sep)| ==> sep !in Split(s, sep)[i]
    ensures |Split(s, sep)| == CountChar(s, sep) + 1
  {
    if s != [] {
      SplitJoin(s[1..], sep);
      var rest := Split(s[1..], sep);
      if s[0] != sep {
        var ps := Split(s, sep);
        assert ps[1..] == rest[1..];
        if |rest| == 1 {
          assert Join(ps, sep) == [s[0]] + rest[0];
        } else {
          assert Join(ps, sep) == [s[0]] + rest[0] + [sep] + Join(rest[1..], sep);
        }
        assert s == [s[0]] + s[1..];
      } else {
        var ps := Split(s, sep);
        assert ps[1..] == rest;
      }
    }
  }

  /** The second piece of a split is the text between the first separator and the next one
      (or the end). */
  lemma SecondPiece(s: string, sep: char) returns (pre: string, post: string)
    requires |Split(s, sep)| >= 2
    ensures s == pre + [sep] + Split(s, sep)[1] + post
    ensures sep !in pre && sep !in Split(s, sep)[1]
    ensures post == [] || post[0] == sep
  {
    var fields := Split(s, sep);
    SplitJoin(s, sep);
    var rest := fields[1..];
    assert s == fields[0] + [sep] + Join(rest, sep);
    pre := fields[0];
    post := if |rest| == 1 then [] else [sep] + Join(rest[1..], sep);
    assert Join(rest, sep) == rest[0] + post;
  }

  /** Splitting pieces that hold no separator after joining them gives the same pieces. */
  lemma {:induction false} JoinSplit(pieces: seq<string>, sep: char)
    requires |pieces| >= 1
    requires forall i :: 0 <= i < |pieces| ==> sep !in pieces[i]
    ensures Split(Join(pieces, sep), sep) == pieces
  {
    if |pieces| == 1 {
      SplitNoSep(pieces[0], sep);
      assert Join(pieces, sep) == pieces[0];
      assert Split(pieces[0], sep) == [pieces[0]];
      assert pieces == [pieces[0]];
    } else {
      JoinSplit(pieces[1..], sep);
      var tail := [sep] + Join(pieces[1..], sep);
      SplitPrefix(pieces[0], tail, sep);
      assert tail[1..] == Join(pieces[1..], sep);
      assert Split(tail, sep) == [""] + pieces[1..];
      assert Split(tail, sep)[0] == "" && Split(tail, sep)[1..] == pieces[1..];
      assert Join(pieces, sep) == pieces[0] + tail;
      assert pieces[0] + "" == pieces[0];
      assert [pieces[0]] + pieces[1..] == pieces;
    }
  }

  lemma {:induction false} SplitNoSep(s: string, sep: char)
    requires sep !in s
    ensures Split(s, sep) == [s]
  {
    if s != [] {
      SplitNoSep(s[1..], sep);
      assert [s[0]] + s[1..] == s;
    }
  }

  /** A separator-free prefix is glued to the first piece of what follows it. */
  lemma {:induction false} SplitPrefix(a: string, b: string, sep: char)
    requires sep !in a
    ensures Split(a + b, sep) == [a + Split(b, sep)[0]] + Split(b, sep)[1..]
  {
    var sb := Split(b, sep);
    if a == [] {
      assert a + b == b && a + sb[0] == sb[0];
      assert [sb[0]] + sb[1..] == sb;
    } else {
      SplitPrefix(a[1..], b, sep);
      assert (a + b)[1..] == a[1..] + b;
      var r := Split(a[1..] + b, sep);
      assert r[0] == a[1..] + sb[0] && r[1..] == sb[1..];
      assert Split(a + b, sep) == [[a[0]] + r[0]] + r[1..];
      assert [a[0]] + (a[1..] + sb[0]) == a + sb[0];
    }
  }

  /** `s.startswith(prefix)`. */
  predicate StartsWith(s: string, prefix: string)
  {
    |prefix| <= |s| && s[..|prefix|] == prefix
  }

  /** `t in s` for strings, which is also what a regular expression made of one literal finds. */
  predicate Contains(s: string, t: string)
  {
    exists i | 0 <= i <= |s| - |t| :: OccursAt(s, t, i)
  }

  predicate OccursAt(s: string, t: string, i: int)
  {
    0 <= i <= |s| - |t| && s[i..i + |t|] == t
  }

  /** `s.replace(pat, "")`: one scan from the left that removes each non-overlapping occurrence. */
  function RemoveAll(s: string, pat: string): (r: string)
    requires pat != []
    ensures |r| <= |s|
    decreases |s|
  {
    if |s| < |pat| then s
    else if s[..|pat|] == pat then RemoveAll(s[|pat|..], pat)
    else [s[0]] + RemoveAll(s[1..], pat)
  }

  /** An occurrence in the tail of a text is an occurrence one position further in the text. */
  lemma OccursShift(s: string, pat: string, i: int)
    requires s != [] && 0 <= i
    ensures OccursAt(s[1..], pat, i) <==> OccursAt(s, pat, i + 1)
  {
    if 0 <= i <= |s| - 1 - |pat| {
      assert s[1..][i..i + |pat|] == s[i + 1..i + 1 + |pat|];
    }
  }

  /** A text without `pat` has a tail without `pat`. */
  lemma NoOccurrenceInTail(s: string, pat: string)
    requires s != [] && !Contains(s, pat)
    ensures !Contains(s[1..], pat)
  {
    forall i | 0 <= i <= |s[1..]| - |pat| ensures !OccursAt(s[1..], pat, i) {
      OccursShift(s, pat, i);
    }
  }

  /** Text that does not contain `pat` passes through the replacement unchanged. */
  lemma {:induction false} RemoveAllAbsent(s: string, pat: string)
    requires pat != []
    requires !Contains(s, pat)
    ensures RemoveAll(s, pat) == s
    decreases |s|
  {
    if |s| >= |pat| {
      assert !OccursAt(s, pat, 0);
      assert s[0..|pat|] == s[..|pat|];
      NoOccurrenceInTail(s, pat);
      RemoveAllAbsent(s[1..], pat);
      assert [s[0]] + s[1..] == s;
    }
  }

  /** The replacement deletes occurrences in the middle of the text as well as at its head:
      text in front of an occurrence that does not reach into it is kept as it is. */
  lemma {:induction false} RemoveAllSplice(a: string, pat: string, b: string)
    requires pat != []
    requires !Contains(a + pat[..|pat| - 1], pat)
    ensures RemoveAll(a + pat + b, pat) == a + RemoveAll(b, pat)
    decreases |a|
  {
    if a == [] {
      var s := a + pat + b;
      assert s[..|pat|] == pat && s[|pat|..] == b;
    } else {
      NoOccurrenceAtHead(a, pat, b);
      NoOccurrenceInTail(a + pat[..|pat| - 1], pat);
      assert (a + pat[..|pat| - 1])[1..] == a[1..] + pat[..|pat| - 1];
      RemoveAllSplice(a[1..], pat, b);
      KeepHead(a, pat, b);
    }
  }

  lemma KeepHead(a: string, pat: string, b: string)
    requires pat != [] && a != []
    requires (a + pat + b)[..|pat|] != pat
    requires RemoveAll(a[1..] + pat + b, pat) == a[1..] + RemoveAll(b, pat)
    ensures RemoveAll(a + pat + b, pat) == a + RemoveAll(b, pat)
  {
    var s := a + pat + b;
    assert s[1..] == a[1..] + pat + b;
    assert RemoveAll(s, pat) == [s[0]] + RemoveAll(s[1..], pat);
    assert [a[0]] + a[1..] == a;
  }

  lemma NoOccurrenceAtHead(a: string, pat: string, b: string)
    requires pat != [] && a != []
    requires !Contains(a + pat[..|pat| - 1], pat)
    ensures (a + pat + b)[..|pat|] != pat
  {
    var w := a + pat[..|pat| - 1];
    assert !OccursAt(w, pat, 0);
    assert w[0..|pat|] == (a + pat + b)[..|pat|];
  }

  /** Text in which some character of `pat` never appears does not contain `pat`. */
  lemma MissingCharNoOccurrence(s: string, pat: string, k: nat)
    requires k < |pat| && pat[k] !in s
    ensures !Contains(s, pat)
  {
    forall i | 0 <= i <= |s| - |pat| ensures !OccursAt(s, pat, i) {
      assert s[i..i + |pat|][k] == s[i + k];
    }
  }

  /** Two separator-free parts joined by one separator split back into those two parts. */
  lemma SplitTwo(a: string, b: string, sep: char)
    requires sep !in a && sep !in b
    ensures Split(a + [sep] + b, sep) == [a, b]
  {
    JoinSplit([a, b], sep);
    assert Join([a, b], sep) == a + [sep] + b;
  }

  /** `s.strip()`: drops the leading and trailing characters for which IsSpace holds. */
  function Strip(s: string): string
  {
    TrimEnd(TrimStart(s))
  }

  function TrimStart(s: string): (r: string)
    ensures |r| <= |s|
  {
    if s != [] && IsSpace(s[0]) then TrimStart(s[1..]) else s
  }

  function TrimEnd(s: string): string
  {
    if s != [] && IsSpace(s[|s| - 1]) then TrimEnd(s[..|s| - 1]) else s
  }

  /** Strip keeps exactly the middle of the text: it cuts off only whitespace, and what is left
      neither begins nor ends with whitespace. */
  lemma StripSpec(s: string) returns (lead: string, trail: string)
    ensures s == lead + Strip(s) + trail && AllSpace(lead) && AllSpace(trail)
    ensures Strip(s) != [] ==> !IsSpace(Strip(s)[0]) && !IsSpace(Strip(s)[|Strip(s)| - 1])
  {
    lead := TrimStartSpec(s);
    trail := TrimEndSpec(TrimStart(s));
  }

  lemma {:induction false} TrimStartSpec(s: string) returns (lead: string)
    ensures s == lead + TrimStart(s) && AllSpace(lead)
    ensures TrimStart(s) != [] ==> !IsSpace(TrimStart(s)[0])
  {
    if s != [] && IsSpace(s[0]) {
      var l := TrimStartSpec(s[1..]);
      lead := [s[0]] + l;
      assert TrimStart(s) == TrimStart(s[1..]);
      assert s == [s[0]] + s[1..];
      forall i | 0 <= i < |lead| ensures IsSpace(lead[i]) {
        if i > 0 { assert lead[i] == l[i - 1]; }
      }
    } else {
      lead := [];
    }
  }

  lemma {:induction false} TrimEndSpec(s: string) returns (trail: string)
    ensures s == TrimEnd(s) + trail && AllSpace(trail)
    ensures TrimEnd(s) != [] ==> !IsSpace(TrimEnd(s)[|TrimEnd(s)| - 1])
    ensures TrimStart(s) == s ==> TrimStart(TrimEnd(s)) == TrimEnd(s)
  {
    if s != [] && IsSpace(s[|s| - 1]) {
      var t := TrimEndSpec(s[..|s| - 1]);
      trail := t + [s[|s| - 1]];
      assert TrimEnd(s) == TrimEnd(s[..|s| - 1]);
      assert s == s[..|s| - 1] + [s[|s| - 1]];
      forall i | 0 <= i < |trail| ensures IsSpace(trail[i]) {
        if i < |t| { assert trail[i] == t[i]; }
      }
    } else {
      trail := [];
    }
    if TrimEnd(s) != [] {
      assert TrimEnd(s)[0] == s[0];
    }
  }

  /** `c.lower()` for ASCII letters; every other character is left as it is. */
  function LowerChar(c: char): char
  {
    if 'A' <= c <= 'Z' then (c as int + 32) as char else c
  }

  /** `s.lower()`, restricted to ASCII case mapping. */
  function Lower(s: string): (r: string)
    ensures |r| == |s|
    ensures forall i :: 0 <= i < |s| ==> r[i] == LowerChar(s[i])
  {
    if s == [] then [] else [LowerChar(s[0])] + Lower(s[1..])
  }

  /** Lowering is idempotent, so lowering terms and descriptions twice changes nothing. */
  lemma LowerIdempotent(s: string)
    ensures Lower(Lower(s)) == Lower(s)
    ensures forall i :: 0 <= i < |s| ==> !('A' <= Lower(s)[i] <= 'Z')
  {
  }
}
