/**
 Normalisation of the input table (`preprocess_input`) and the list of distinct KO codes
 that `main` resolves (`ko_df['ko'].unique()`).
 */
module Normalize {
  import opened Wrappers
  import opened Text
  import Seqs

  /** One row of the two-column input table; `koRaw` is None where the reader found no value. */
  datatype RawRow = RawRow(gene: string, koRaw: Option<string>)

  /** One validated KO code of one gene. */
  datatype KoRecord = KoRecord(gene: string, ko: string)

  predicate IsDigit(c: char)
  {
    '0' <= c <= '9'
  }

  /** A KEGG Orthology code: the letter `K` followed by exactly five digits. */
  predicate IsKoCode(s: string)
  {
    |s| == 6 && s[0] == 'K' && forall i | 1 <= i < 6 :: IsDigit(s[i])
  }

  /** `re.match(r'^K\d{5}$', s)` as the script writes it: `$` also matches just before a
      newline that ends the text, so a code followed by one newline passes. */
  predicate MatchesKoPattern(s: string)
  {
    IsKoCode(s) || (|s| == 7 && IsKoCode(s[..6]) && s[6] == '\n')
  }

  /** The pattern as written admits a value that is not a KO code; IsKoCode rejects it. */
  lemma TrailingNewlineAccepted()
    ensures MatchesKoPattern("K00001\n") && !IsKoCode("K00001\n")
    ensures forall s :: IsKoCode(s) ==> MatchesKoPattern(s)
  {
    assert "K00001\n"[..6] == "K00001";
  }

  /** Rows whose KO field is missing or the placeholder `-` are removed before splitting. */
  predicate Dropped(row: RawRow)
  {
    row.koRaw.None? || row.koRaw.value == "-"
  }

  /** `replace('ko:', '')` on one piece of a KO field. */
  function StripKoTag(piece: string): string
  {
    RemoveAll(piece, "ko:")
  }

  /** The record one piece of a KO field gives: the piece loses every `ko:` and is kept
      only if what is left is a KO code. */
  function PieceRecord(gene: string, piece: string): (r: seq<KoRecord>)
    ensures |r| <= 1
  {
    var code := StripKoTag(piece);
    if IsKoCode(code) then [KoRecord(gene, code)] else []
  }

  /** The record one piece gives under the pattern as the script writes it, which also keeps
      a code followed by one newline. */
  function PieceRecordAsWritten(gene: string, piece: string): (r: seq<KoRecord>)
    ensures |r| <= 1
  {
    var code := StripKoTag(piece);
    if MatchesKoPattern(code) then [KoRecord(gene, code)] else []
  }

  /** The pattern as written and the KO-code check disagree on a piece exactly when, without
      `ko:`, it is a KO code followed by one newline; `K00001` and a newline is such a piece. */
  lemma PieceRecordAsWrittenDiffers(gene: string, piece: string)
    ensures PieceRecordAsWritten(gene, piece) != PieceRecord(gene, piece) <==>
      var code := StripKoTag(piece);
      |code| == 7 && IsKoCode(code[..6]) && code[6] == '\n'
    ensures PieceRecordAsWritten(gene, "K00001\n") == [KoRecord(gene, "K00001\n")]
    ensures PieceRecord(gene, "K00001\n") == []
  {
    var code := StripKoTag(piece);
    if |code| == 7 && IsKoCode(code[..6]) && code[6] == '\n' {
      assert !IsKoCode(code);
    }
    var nl := "K00001\n";
    MissingCharNoOccurrence(nl, "ko:", 0);
    RemoveAllAbsent(nl, "ko:");
    TrailingNewlineAccepted();
  }

  /** The records one input row contributes: its comma-separated pieces, in order. */
  function RowRecords(row: RawRow): seq<KoRecord>
  {
    if Dropped(row) then [] else Seqs.FlatMap(Split(row.koRaw.value, ','), p => PieceRecord(row.gene, p))
  }

  /** `preprocess_input`: the rows' records, row after row. */
  function Preprocess(rows: seq<RawRow>): seq<KoRecord>
  {
    Seqs.FlatMap(rows, RowRecords)
  }

  /** What one row yields: nothing for a missing or `-` field; otherwise at most one record per
      comma-separated piece, every one carrying the row's gene, and a code appears exactly when
      some piece turns into it. */
  lemma RowRecordsSpec(row: RawRow)
    ensures Dropped(row) ==> RowRecords(row) == []
    ensures !Dropped(row) ==> |RowRecords(row)| <= CountChar(row.koRaw.value, ',') + 1
    ensures forall rec :: rec in RowRecords(row) <==>
      !Dropped(row) && rec.gene == row.gene && IsKoCode(rec.ko) &&
      exists p :: p in Split(row.koRaw.value, ',') && StripKoTag(p) == rec.ko
  {
    if !Dropped(row) {
      var pieces := Split(row.koRaw.value, ',');
      var f := p => PieceRecord(row.gene, p);
      SplitJoin(row.koRaw.value, ',');
      Seqs.FlatMapAtMostOne(pieces, f);
      forall rec ensures rec in RowRecords(row) <==>
        rec.gene == row.gene && IsKoCode(rec.ko) && exists p :: p in pieces && StripKoTag(p) == rec.ko
      {
        Seqs.FlatMapMember(pieces, f, rec);
        if rec.gene == row.gene && IsKoCode(rec.ko) && exists p :: p in pieces && StripKoTag(p) == rec.ko {
          var p :| p in pieces && StripKoTag(p) == rec.ko;
          var i :| 0 <= i < |pieces| && pieces[i] == p;
          assert rec in f(pieces[i]);
        }
      }
    }
  }

  /** A kept field gives one record per piece that turns into a KO code, in piece order: the
      m-th record comes from piece pos[m], the positions increase strictly, and every piece
      that turns into a KO code is among them. */
  lemma RowRecordsPositions(row: RawRow) returns (pos: seq<nat>)
    requires !Dropped(row)
    ensures |pos| == |RowRecords(row)|
    ensures forall m :: 0 <= m < |pos| ==>
      pos[m] < |Split(row.koRaw.value, ',')| &&
      IsKoCode(StripKoTag(Split(row.koRaw.value, ',')[pos[m]])) &&
      RowRecords(row)[m] == KoRecord(row.gene, StripKoTag(Split(row.koRaw.value, ',')[pos[m]]))
    ensures forall m, n :: 0 <= m < n < |pos| ==> pos[m] < pos[n]
    ensures forall i :: (0 <= i < |Split(row.koRaw.value, ',')| &&
      IsKoCode(StripKoTag(Split(row.koRaw.value, ',')[i]))) ==> i in pos
  {
    var pieces := Split(row.koRaw.value, ',');
    var f := p => PieceRecord(row.gene, p);
    pos := Seqs.FlatMapPositions(pieces, f);
  }

  /** Every preprocessed record holds a KO code and comes from a row that was not dropped. */
  lemma PreprocessValid(rows: seq<RawRow>)
    ensures forall rec :: rec in Preprocess(rows) ==>
      IsKoCode(rec.ko) && exists i :: 0 <= i < |rows| && !Dropped(rows[i]) && rows[i].gene == rec.gene
  {
    forall rec | rec in Preprocess(rows)
      ensures IsKoCode(rec.ko) && exists i :: 0 <= i < |rows| && !Dropped(rows[i]) && rows[i].gene == rec.gene
    {
      Seqs.FlatMapMember(rows, RowRecords, rec);
      var i :| 0 <= i < |rows| && rec in RowRecords(rows[i]);
      RowRecordsSpec(rows[i]);
    }
  }

  /** Preprocessing works row by row and keeps the input order. */
  lemma PreprocessAppend(a: seq<RawRow>, b: seq<RawRow>)
    ensures Preprocess(a + b) == Preprocess(a) + Preprocess(b)
  {
    Seqs.FlatMapAppend(a, b, RowRecords);
  }

  /** A row whose KO field is missing or `-` contributes nothing wherever it stands. */
  lemma DroppedRowIgnored(a: seq<RawRow>, row: RawRow, b: seq<RawRow>)
    requires Dropped(row)
    ensures Preprocess(a + [row] + b) == Preprocess(a + b)
  {
    PreprocessAppend(a + [row], b);
    PreprocessAppend(a, [row]);
    PreprocessAppend(a, b);
    assert Preprocess([row]) == RowRecords(row) + Preprocess([]) by {
      assert [row][0] == row && [row][1..] == [];
    }
  }

  /** Removing `ko:` leaves a bare code as it is and turns a tagged code into the bare code. */
  lemma StripKoTagOfCode(code: string)
    requires IsKoCode(code)
    ensures StripKoTag(code) == code
    ensures StripKoTag("ko:" + code) == code
  {
    MissingCharNoOccurrence(code, "ko:", 0);
    RemoveAllAbsent(code, "ko:");
    var s := "ko:" + code;
    assert s[..3] == "ko:" && s[3..] == code;
  }

  /** A field `ko:A,ko:B` of two KO codes gives two records of the row's gene, in order. */
  lemma TwoTaggedCodes(gene: string, a: string, b: string)
    requires IsKoCode(a) && IsKoCode(b)
    ensures RowRecords(RawRow(gene, Some("ko:" + a + ",ko:" + b))) ==
      [KoRecord(gene, a), KoRecord(gene, b)]
  {
    var x, y := "ko:" + a, "ko:" + b;
    assert "ko:" + a + ",ko:" + b == x + [','] + y;
    assert ',' !in x && ',' !in y by {
      assert forall i | 0 <= i < |x| :: x[i] == 'k' || x[i] == 'o' || x[i] == ':' || x[i] == 'K' || IsDigit(x[i]);
      assert forall i | 0 <= i < |y| :: y[i] == 'k' || y[i] == 'o' || y[i] == ':' || y[i] == 'K' || IsDigit(y[i]);
    }
    SplitTwo(x, y, ',');
    StripKoTagOfCode(a);
    StripKoTagOfCode(b);
    PairRecords(gene, x, y);
  }

  /** A field `A, B` keeps the blank before `B`, so only `A` gives a record. */
  lemma SpaceAfterCommaRejected(gene: string, a: string, b: string)
    requires IsKoCode(a) && IsKoCode(b)
    ensures RowRecords(RawRow(gene, Some(a + ", " + b))) == [KoRecord(gene, a)]
  {
    var y := " " + b;
    assert a + ", " + b == a + [','] + y;
    assert ',' !in a && ',' !in y by {
      assert forall i | 0 <= i < |a| :: a[i] == 'K' || IsDigit(a[i]);
      assert forall i | 0 <= i < |y| :: y[i] == ' ' || y[i] == 'K' || IsDigit(y[i]);
    }
    SplitTwo(a, y, ',');
    StripKoTagOfCode(a);
    assert 'k' !in y by {
      assert forall i | 0 <= i < |y| :: y[i] == ' ' || y[i] == 'K' || IsDigit(y[i]);
    }
    MissingCharNoOccurrence(y, "ko:", 0);
    RemoveAllAbsent(y, "ko:");
    assert !IsKoCode(y);
    PairRecords(gene, a, y);
  }

  lemma PairRecords(gene: string, x: string, y: string)
    ensures Seqs.FlatMap([x, y], p => PieceRecord(gene, p)) == PieceRecord(gene, x) + PieceRecord(gene, y)
  {
    var f := p => PieceRecord(gene, p);
    assert [x, y][1..] == [y] && [y][1..] == [];
    assert Seqs.FlatMap([y], f) == f(y) + Seqs.FlatMap([], f);
  }

  /** The KO column of the preprocessed table. */
  function Codes(records: seq<KoRecord>): (codes: seq<string>)
    ensures |codes| == |records|
    ensures forall i :: 0 <= i < |records| ==> codes[i] == records[i].ko
  {
    if records == [] then [] else [records[0].ko] + Codes(records[1..])
  }

  lemma CodesMember(records: seq<KoRecord>, c: string)
    ensures c in Codes(records) <==> exists rec :: rec in records && rec.ko == c
  {
    var codes := Codes(records);
    if c in codes {
      var i :| 0 <= i < |codes| && codes[i] == c;
      assert records[i] in records;
    }
    if exists rec :: rec in records && rec.ko == c {
      var rec :| rec in records && rec.ko == c;
      var i :| 0 <= i < |records| && records[i] == rec;
      assert codes[i] == c;
    }
  }

  /** `ko_df['ko'].unique()`. */
  function UniqueCodes(records: seq<KoRecord>): seq<string>
  {
    Seqs.Unique(Codes(records))
  }

  /** The codes to resolve: no code twice, exactly the codes of the records, valid KO codes,
      in the order in which they first occur. */
  lemma UniqueCodesSpec(records: seq<KoRecord>)
    ensures forall i, j :: 0 <= i < j < |UniqueCodes(records)| ==> UniqueCodes(records)[i] != UniqueCodes(records)[j]
    ensures forall c :: c in UniqueCodes(records) <==> exists rec :: rec in records && rec.ko == c
    ensures UniqueCodes(records) == Seqs.FirstOccurrences(Codes(records), Seqs.Id)
  {
    var codes := Codes(records);
    Seqs.UniqueSpec(codes);
    forall c ensures c in codes <==> exists rec :: rec in records && rec.ko == c {
      CodesMember(records, c);
    }
  }

  /** Every code handed to the resolver is a KO code. */
  lemma UniqueCodesValid(rows: seq<RawRow>)
    ensures forall c :: c in UniqueCodes(Preprocess(rows)) ==> IsKoCode(c)
  {
    var records := Preprocess(rows);
    UniqueCodesSpec(records);
    PreprocessValid(rows);
    forall c | c in UniqueCodes(records) ensures IsKoCode(c) {
      var rec :| rec in records && rec.ko == c;
    }
  }
}
