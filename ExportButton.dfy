/** The CSV text the export button downloads: a header line of the first
    record's keys, then one line per record whose fields are the values
    wrapped in double quotes, lines separated by a line feed. */
module ExportButton {
  import opened Text
  import opened Records

  /** `"${text}"`: the text between two double quotes, nothing escaped. */
  function Quote(t: string): string {
    ['"'] + t + ['"']
  }

  /** Each text quoted. */
  function Quoted(ts: seq<string>): (qs: seq<string>)
    ensures |qs| == |ts|
    ensures forall i :: 0 <= i < |ts| ==> qs[i] == Quote(ts[i])
  {
    seq(|ts|, i requires 0 <= i < |ts| => Quote(ts[i]))
  }

  /** The texts of a row's fields, in key order: numbers through
      `toFixed(2)` (`fixed2`), other values through `String`. */
  function CellTexts(row: Record, keys: seq<string>, fixed2: real -> string): (ts: seq<string>)
    ensures |ts| == |keys|
    ensures forall i :: 0 <= i < |keys| ==> ts[i] == Show(Get(row, keys[i]), fixed2)
  {
    seq(|keys|, i requires 0 <= i < |keys| => Show(Get(row, keys[i]), fixed2))
  }

  /** The header line: the keys joined by commas, not quoted. */
  function Header(keys: seq<string>): string {
    Join(keys, ',')
  }

  /** One data line: the quoted field texts joined by commas. */
  function Line(row: Record, keys: seq<string>, fixed2: real -> string): string {
    Join(Quoted(CellTexts(row, keys, fixed2)), ',')
  }

  /** The data lines, one per record, in input order. */
  function Lines(data: seq<Record>, keys: seq<string>, fixed2: real -> string): (ls: seq<string>)
    ensures |ls| == |data|
    ensures forall i :: 0 <= i < |data| ==> ls[i] == Line(data[i], keys, fixed2)
  {
    seq(|data|, i requires 0 <= i < |data| => Line(data[i], keys, fixed2))
  }

  /** The CSV text, or nothing when the data is missing or empty. The
      columns are the keys of the first record. */
  function Csv(data: Option<seq<Record>>, fixed2: real -> string): (out: Option<string>)
    ensures out.None? <==> data.None? || data.value == []
  {
    if data.None? || |data.value| == 0 then None
    else
      var keys := Keys(data.value[0]);
      Some(Join([Header(keys)] + Lines(data.value, keys, fixed2), '\n'))
  }

  /** `Join` over two non-empty parts is the join of each part, separated. */
  lemma {:induction false} JoinAppend(a: seq<string>, b: seq<string>, sep: char)
    requires |a| >= 1 && |b| >= 1
    ensures Join(a + b, sep) == Join(a, sep) + [sep] + Join(b, sep)
    decreases |a|
  {
    assert (a + b)[0] == a[0];
    assert (a + b)[1..] == a[1..] + b;
    if |a| > 1 {
      JoinAppend(a[1..], b, sep);
    }
  }

  /** A character that is neither the separator nor in any piece is not in
      their join. */
  lemma {:induction false} JoinExcludes(ls: seq<string>, sep: char, c: char)
    requires c != sep
    requires forall i :: 0 <= i < |ls| ==> c !in ls[i]
    ensures c !in Join(ls, sep)
    decreases |ls|
  {
    if |ls| > 1 {
      JoinExcludes(ls[1..], sep, c);
    }
  }

  /** The pieces a quoted line falls into when cut at every double quote:
      an empty piece, then the texts with a comma piece between each two,
      then an empty piece. */
  function Pieces(ts: seq<string>): (ps: seq<string>)
    ensures |ps| == 2 * |ts| + 1
    ensures ps[0] == "" && ps[2 * |ts|] == ""
    ensures forall i :: 0 <= i < |ts| ==> ps[2 * i + 1] == ts[i]
    ensures forall i :: 0 < i < 2 * |ts| && i % 2 == 0 ==> ps[i] == ","
  {
    seq(2 * |ts| + 1, i requires 0 <= i < 2 * |ts| + 1 =>
      if i % 2 == 1 then ts[i / 2] else if i == 0 || i == 2 * |ts| then "" else ",")
  }

  /** The pieces of several texts: those of the first, a comma piece, then
      those of the rest without their leading empty piece. */
  lemma PiecesCons(ts: seq<string>)
    requires |ts| >= 2
    ensures Pieces(ts) == ["", ts[0], ","] + Pieces(ts[1..])[1..]
  {
    var ps, pr := Pieces(ts), Pieces(ts[1..]);
    var rhs := ["", ts[0], ","] + pr[1..];
    assert |rhs| == |ps|;
    forall i | 3 <= i < |ps|
      ensures ps[i] == rhs[i]
    {
      assert rhs[i] == pr[i - 2];
      if i % 2 == 1 {
        assert (i - 2) / 2 == i / 2 - 1;
      }
    }
  }

  /** Joining quoted texts with commas is joining their pieces with double
      quotes. */
  lemma {:induction false} QuotedJoinPieces(ts: seq<string>)
    requires |ts| >= 1
    ensures Join(Quoted(ts), ',') == Join(Pieces(ts), '"')
    decreases |ts|
  {
    var ps := Pieces(ts);
    if |ts| == 1 {
      assert ps == ["", ts[0], ""];
      assert ps[1..] == [ts[0], ""] && ps[1..][1..] == [""];
      assert Join(ps[1..], '"') == ts[0] + ['"'] + "";
      assert Join(ps, '"') == "" + ['"'] + Join(ps[1..], '"');
      assert Quoted(ts) == [Quote(ts[0])];
    } else {
      var rest := ts[1..];
      var pr := Pieces(rest);
      var head := ["", ts[0], ","];
      QuotedJoinPieces(rest);
      PiecesCons(ts);
      JoinAppend(head, pr[1..], '"');
      assert Quoted(ts)[1..] == Quoted(rest);
      assert head[1..] == [ts[0], ","] && head[1..][1..] == [","];
      var tail := Join(pr[1..], '"');
      assert Join(head[1..], '"') == ts[0] + ['"'] + Join([","], '"');
      assert Join(head, '"') == "" + ['"'] + Join(head[1..], '"');
      calc {
        Join(Quoted(ts), ',');
        Quote(ts[0]) + [','] + Join(Quoted(rest), ',');
        Quote(ts[0]) + [','] + Join(pr, '"');
        Quote(ts[0]) + [','] + ("" + ['"'] + tail);
        ("" + ['"'] + (ts[0] + ['"'] + ",")) + ['"'] + tail;
        Join(head, '"') + ['"'] + tail;
        Join(ps, '"');
      }
    }
  }

  /** The inverse of `Line` on quoted fields free of double quotes: cut the
      line at every double quote; it must open and close with one and have
      a single comma between each field and the next; the fields are the
      pieces at odd positions. */
  function ParseLine(line: string): Option<seq<string>> {
    var ps := Split(line, '"');
    if |ps| >= 3 && |ps| % 2 == 1 && ps[0] == "" && ps[|ps| - 1] == ""
       && (forall i :: 0 < i < |ps| - 1 && i % 2 == 0 ==> ps[i] == ",")
    then Some(seq((|ps| - 1) / 2, i requires 0 <= i < (|ps| - 1) / 2 => ps[2 * i + 1]))
    else None
  }

  /** No piece of texts free of double quotes holds one. */
  lemma PiecesUnquoted(ts: seq<string>)
    requires forall i :: 0 <= i < |ts| ==> '"' !in ts[i]
    ensures forall i :: 0 <= i < |Pieces(ts)| ==> '"' !in Pieces(ts)[i]
  {
    var ps := Pieces(ts);
    forall i | 0 <= i < |ps| ensures '"' !in ps[i] {
      if i % 2 == 1 {
        assert ps[2 * (i / 2) + 1] == ts[i / 2];
      }
    }
  }

  /** A line that cuts into the pieces of `ts` parses to `ts`. */
  lemma ParsePieces(line: string, ts: seq<string>)
    requires |ts| >= 1
    requires Split(line, '"') == Pieces(ts)
    ensures ParseLine(line) == Some(ts)
  {
    var ps := Pieces(ts);
    assert (|ps| - 1) / 2 == |ts|;
    var fields := seq((|ps| - 1) / 2, i requires 0 <= i < (|ps| - 1) / 2 => ps[2 * i + 1]);
    assert fields == ts;
  }

  /** Quoted texts without double quotes, joined by commas, parse back to
      the texts: the line has exactly one field per text. */
  lemma ParseQuoted(ts: seq<string>)
    requires |ts| >= 1
    requires forall i :: 0 <= i < |ts| ==> '"' !in ts[i]
    ensures ParseLine(Join(Quoted(ts), ',')) == Some(ts)
  {
    QuotedJoinPieces(ts);
    PiecesUnquoted(ts);
    SplitJoin(Pieces(ts), '"');
    ParsePieces(Join(Quoted(ts), ','), ts);
  }

  /** A data line has exactly one field per key, holding that key's value
      text, when no value text contains a double quote. */
  lemma LineRoundTrip(row: Record, keys: seq<string>, fixed2: real -> string)
    requires |keys| >= 1
    requires forall i :: 0 <= i < |keys| ==> '"' !in Show(Get(row, keys[i]), fixed2)
    ensures ParseLine(Line(row, keys, fixed2)) == Some(CellTexts(row, keys, fixed2))
    ensures |ParseLine(Line(row, keys, fixed2)).value| == |keys|
  {
    ParseQuoted(CellTexts(row, keys, fixed2));
  }

  /** The header line splits at its commas back into the keys, when no key
      contains a comma. */
  lemma HeaderRoundTrip(keys: seq<string>)
    requires |keys| >= 1
    requires forall i :: 0 <= i < |keys| ==> ',' !in keys[i]
    ensures Split(Header(keys), ',') == keys
  {
    SplitJoin(keys, ',');
  }

  /** Cut at its line feeds, the CSV of non-empty data is the header line
      and then exactly one line per record, in input order, when no key and
      no value text contains a line feed. */
  lemma CsvLines(data: seq<Record>, fixed2: real -> string)
    requires data != []
    requires forall k :: k in Keys(data[0]) ==> '\n' !in k
    requires forall r, k :: r in data && k in Keys(data[0]) ==> '\n' !in Show(Get(r, k), fixed2)
    ensures Csv(Some(data), fixed2).Some?
    ensures Split(Csv(Some(data), fixed2).value, '\n')
            == [Header(Keys(data[0]))] + Lines(data, Keys(data[0]), fixed2)
    ensures |Split(Csv(Some(data), fixed2).value, '\n')| == |data| + 1
  {
    var keys := Keys(data[0]);
    var all := [Header(keys)] + Lines(data, keys, fixed2);
    JoinExcludes(keys, ',', '\n');
    forall i | 0 <= i < |data|
      ensures '\n' !in Line(data[i], keys, fixed2)
    {
      var qs := Quoted(CellTexts(data[i], keys, fixed2));
      forall j | 0 <= j < |qs| ensures '\n' !in qs[j] {
        assert data[i] in data && keys[j] in keys;
      }
      JoinExcludes(qs, ',', '\n');
    }
    assert forall i :: 0 <= i < |all| ==> '\n' !in all[i] by {
      forall i | 0 <= i < |all| ensures '\n' !in all[i] {
        if i > 0 {
          assert all[i] == Line(data[i - 1], keys, fixed2);
        }
      }
    }
    SplitJoin(all, '\n');
  }

  /** A line under two keys: two quoted texts and a comma between them. */
  lemma LineOfTwo(row: Record, k1: string, k2: string, fixed2: real -> string)
    ensures Line(row, [k1, k2], fixed2)
            == Quote(Show(Get(row, k1), fixed2)) + [','] + Quote(Show(Get(row, k2), fixed2))
  {
    var qs := Quoted(CellTexts(row, [k1, k2], fixed2));
    assert qs[1..] == [qs[1]];
    assert Join(qs[1..], ',') == qs[1];
    assert Join(qs, ',') == qs[0] + [','] + Join(qs[1..], ',');
  }

  /** Three quoted texts joined by commas. */
  lemma JoinOfThree(x: string, y: string, z: string)
    ensures Join(Quoted([x, y, z]), ',') == Quote(x) + [','] + Quote(y) + [','] + Quote(z)
  {
    var qs := Quoted([x, y, z]);
    assert qs[1..] == [Quote(y), Quote(z)];
    assert qs[1..][1..] == [Quote(z)];
    assert Join(qs[1..][1..], ',') == Quote(z);
    assert Join(qs[1..], ',') == Quote(y) + [','] + Quote(z);
    assert Join(qs, ',') == Quote(x) + [','] + Join(qs[1..], ',');
  }

  /** Quoting text that holds `","` is quoting its two sides, a comma
      between them. */
  lemma QuoteSplice(x: string, y: string)
    ensures Quote(x + "\",\"" + y) == Quote(x) + [','] + Quote(y)
  {
    var q := ['"'];
    assert "\",\"" == q + [','] + q;
  }

  /** The line of `x","y` then `z` is the three quoted texts `x`, `y`, `z`. */
  lemma SplicedFirst(k1: string, k2: string, x: string, y: string, z: string, fixed2: real -> string)
    requires k1 != k2
    ensures Line([Field(k1, Str(x + "\",\"" + y)), Field(k2, Str(z))], [k1, k2], fixed2)
            == Join(Quoted([x, y, z]), ',')
  {
    var row := [Field(k1, Str(x + "\",\"" + y)), Field(k2, Str(z))];
    assert Get(row, k1) == Str(x + "\",\"" + y);
    assert Get(row, k2) == Get(row[1..], k2) == Str(z);
    LineOfTwo(row, k1, k2, fixed2);
    JoinOfThree(x, y, z);
    QuoteSplice(x, y);
  }

  /** The line of `x` then `y","z` is the three quoted texts `x`, `y`, `z`. */
  lemma SplicedSecond(k1: string, k2: string, x: string, y: string, z: string, fixed2: real -> string)
    requires k1 != k2
    ensures Line([Field(k1, Str(x)), Field(k2, Str(y + "\",\"" + z))], [k1, k2], fixed2)
            == Join(Quoted([x, y, z]), ',')
  {
    var row := [Field(k1, Str(x)), Field(k2, Str(y + "\",\"" + z))];
    assert Get(row, k1) == Str(x);
    assert Get(row, k2) == Get(row[1..], k2) == Str(y + "\",\"" + z);
    LineOfTwo(row, k1, k2, fixed2);
    JoinOfThree(x, y, z);
    QuoteSplice(y, z);
  }

  /** A value holding a double quote is written unescaped, so two
      different records give the same line: `x","y` then `z`, and `x` then
      `y","z`, both written as the three quoted texts `x`, `y`, `z`. */
  lemma EmbeddedQuoteAmbiguous(k1: string, k2: string, x: string, y: string, z: string, fixed2: real -> string)
    requires k1 != k2
    ensures var a := [Field(k1, Str(x + "\",\"" + y)), Field(k2, Str(z))];
            var b := [Field(k1, Str(x)), Field(k2, Str(y + "\",\"" + z))];
            && a != b
            && Line(a, [k1, k2], fixed2) == Line(b, [k1, k2], fixed2)
  {
    var a := [Field(k1, Str(x + "\",\"" + y)), Field(k2, Str(z))];
    var b := [Field(k1, Str(x)), Field(k2, Str(y + "\",\"" + z))];
    assert |a[0].value.s| != |b[0].value.s|;
    SplicedFirst(k1, k2, x, y, z, fixed2);
    SplicedSecond(k1, k2, x, y, z, fixed2);
  }

  /** The line of the two-key record `x","y` then `z`, read back, has
      three fields, `x`, `y` and `z`. */
  lemma EmbeddedQuoteAddsField(k1: string, k2: string, x: string, y: string, z: string, fixed2: real -> string)
    requires k1 != k2 && '"' !in x && '"' !in y && '"' !in z
    ensures ParseLine(Line([Field(k1, Str(x + "\",\"" + y)), Field(k2, Str(z))], [k1, k2], fixed2))
            == Some([x, y, z])
  {
    SplicedFirst(k1, k2, x, y, z, fixed2);
    ParseQuoted([x, y, z]);
  }
}
