/** The column extraction of the `;`-separated rule files.

    The file itself is not read here: it arrives as the list of its lines,
    each still carrying its line terminator, as `readlines()` returns them,
    together with whether the file has the `.csv` format.
 */
module CsvFile {
  import opened Results
  import opened Strings

  const Separator: string := ";"

  /** The `;`-separated fields of one line, terminator included in the last. */
  function Fields(line: string): seq<string> {
    Split(line, Separator)
  }

  /** Every line of `corpus` has a field number `k`. */
  predicate AllHaveField(corpus: seq<string>, k: nat) {
    forall i :: 0 <= i < |corpus| ==> k < |Fields(corpus[i])|
  }

  /** Field `k` of every line, in line order. */
  function Column(corpus: seq<string>, k: nat): (col: seq<string>)
    requires AllHaveField(corpus, k)
    ensures |col| == |corpus|
    ensures forall i :: 0 <= i < |corpus| ==> col[i] == Fields(corpus[i])[k]
  {
    seq(|corpus|, i requires 0 <= i < |corpus| => Fields(corpus[i])[k])
  }

  /** No header field after position `k` repeats the name at `k`. */
  predicate LastOccurrence(names: seq<string>, k: nat)
    requires k < |names|
  {
    forall j :: k < j < |names| ==> names[j] != names[k]
  }

  lemma LastOccurrenceStep(names: seq<string>, k: nat, j: nat)
    requires j < k < |names|
    requires LastOccurrence(names[..k + 1], j)
    ensures LastOccurrence(names[..k], j) && names[k] != names[j]
  {
    assert names[..k + 1][k] == names[k];
  }

  /** The names of the first `k` header fields. */
  function NamesBelow(header: seq<string>, k: nat): (names: set<string>)
    requires k <= |header|
    ensures forall j :: 0 <= j < k ==> header[j] in names
  {
    if k == 0 then {} else NamesBelow(header, k - 1) + {header[k - 1]}
  }

  /** One loop step of `GetColumnDatas`: adding the column of field `k`
      extends the keys by its name and keeps every last-occurrence column. */
  lemma ColumnsStep(header: seq<string>, corpus: seq<string>, k: nat, columns: map<string, seq<string>>)
    requires k < |header|
    requires forall j :: 0 <= j <= k ==> AllHaveField(corpus, j)
    requires columns.Keys == NamesBelow(header, k)
    requires forall j :: 0 <= j < k && LastOccurrence(header[..k], j) ==>
               columns[header[j]] == Column(corpus, j)
    ensures var next := columns[header[k] := Column(corpus, k)];
            next.Keys == NamesBelow(header, k + 1) &&
            forall j :: 0 <= j < k + 1 && LastOccurrence(header[..k + 1], j) ==>
              next[header[j]] == Column(corpus, j)
  {
    var next := columns[header[k] := Column(corpus, k)];
    forall j | 0 <= j < k + 1 && LastOccurrence(header[..k + 1], j)
      ensures next[header[j]] == Column(corpus, j)
    {
      if j < k {
        LastOccurrenceStep(header, k, j);
      }
    }
  }

  /** The names of all header fields are the header's names. */
  lemma {:induction false} HeaderNames(header: seq<string>, k: nat)
    requires k <= |header|
    ensures NamesBelow(header, k) == set h | h in header[..k]
  {
    if k > 0 {
      HeaderNames(header, k - 1);
      assert header[..k] == header[..k - 1] + [header[k - 1]];
    }
  }

  /** The column map of a rule file: one key per header field, mapped to
      that field of every data line. A repeated header name keeps the later
      column; a data line with too few fields raises IndexError, and so does
      an empty file; a file of another format gives the empty map. */
  method GetColumnDatas(isCsv: bool, lines: seq<string>) returns (r: Result<map<string, seq<string>>>)
    ensures !isCsv ==> r == Ok(map[])
    ensures isCsv && |lines| == 0 ==> r == Err(IndexError)
    ensures isCsv && |lines| > 0 ==>
              (r.Ok? <==> AllHaveField(lines[1..], |Fields(lines[0])| - 1))
    ensures isCsv && r.Ok? ==>
              |lines| > 0 && r.value.Keys == set h | h in Fields(lines[0])
    ensures isCsv && r.Ok? ==>
              forall k :: 0 <= k < |Fields(lines[0])| && LastOccurrence(Fields(lines[0]), k) ==>
                AllHaveField(lines[1..], k) && r.value[Fields(lines[0])[k]] == Column(lines[1..], k)
  {
    if !isCsv {
      return Ok(map[]);
    }
    if |lines| == 0 {
      return Err(IndexError);
    }
    r := ColumnsOf(Fields(lines[0]), lines[1..]);
  }

  /** The column map of the data lines `corpus` under the field names `header`. */
  method ColumnsOf(header: seq<string>, corpus: seq<string>) returns (r: Result<map<string, seq<string>>>)
    requires |header| > 0
    ensures r.Ok? <==> AllHaveField(corpus, |header| - 1)
    ensures r.Ok? ==> r.value.Keys == set h | h in header
    ensures r.Ok? ==>
              forall k :: 0 <= k < |header| && LastOccurrence(header, k) ==>
                AllHaveField(corpus, k) && r.value[header[k]] == Column(corpus, k)
  {
    var columns: map<string, seq<string>> := map[];
    var k := 0;
    while k < |header|
      invariant 0 <= k <= |header|
      invariant forall j :: 0 <= j < k ==> AllHaveField(corpus, j)
      invariant columns.Keys == NamesBelow(header, k)
      invariant forall j :: 0 <= j < k && LastOccurrence(header[..k], j) ==>
                  columns[header[j]] == Column(corpus, j)
    {
      var short := exists i :: 0 <= i < |corpus| && |Fields(corpus[i])| <= k;
      if short {
        var i :| 0 <= i < |corpus| && |Fields(corpus[i])| <= k;
        assert !(|header| - 1 < |Fields(corpus[i])|);
        return Err(IndexError);
      }
      assert AllHaveField(corpus, k);
      ColumnsStep(header, corpus, k, columns);
      columns := columns[header[k] := Column(corpus, k)];
      k := k + 1;
    }
    HeaderNames(header, k);
    assert header[..k] == header;
    return Ok(columns);
  }

  /** Lines are not stripped: when the header line ends with its newline,
      so does the name of its last column. */
  lemma LastHeaderKeepsNewline(header: string)
    requires |header| > 0 && header[|header| - 1] == '\n'
    ensures EndsWithChar(Last(Fields(header)), '\n')
  {
    SplitLastKeepsEnd(header, Separator);
  }
}
