/** The other sections of the backup file, built from device reports:
    the variables and arrays of the microcode (`[Data]`), the controller's
    identity (`[SystemInfo]`), the microcode itself (`[Program]`), and the
    list of networks the controller-box table knows.
 */
module OsmosSections {
  import opened Results
  import opened Strings
  import opened OsmosFiles
  import opened Osmos

  /** One microcode variable as the device lists it. */
  datatype Variable = Variable(name: string, value: string)

  /** One line `name= value` of the variable listing: the text before the
      first "= " and the text between it and the next one. A line without
      "= " has no second piece (IndexError). */
  function ParseVariable(line: string): (r: Result<Variable>)
    ensures r.Ok? <==> Contains(line, "= ")
    ensures r.Ok? ==> !Contains(r.value.name, "= ") && !Contains(r.value.value, "= ")
    ensures r.Ok? ==> StartsWith(line, r.value.name + "= " + r.value.value)
    ensures r.Ok? ==> || line == r.value.name + "= " + r.value.value
                      || StartsWith(line, r.value.name + "= " + r.value.value + "= ")
  {
    var parts := Split(line, "= ");
    SplitFindsSeparator(line, "= ");
    if |parts| < 2 then
      Err(IndexError)
    else
      SplitJoinRoundTrip(line, "= ");
      JoinTwoPieces(parts, "= ");
      Ok(Variable(parts[0], parts[1]))
  }

  /** The join of several pieces starts with its first two pieces: it is
      exactly those two when there are two, and they are followed by a
      separator when there are more. */
  lemma JoinTwoPieces(parts: seq<string>, sep: string)
    requires |parts| >= 2
    ensures StartsWith(Join(parts, sep), parts[0] + sep + parts[1])
    ensures |parts| == 2 ==> Join(parts, sep) == parts[0] + sep + parts[1]
    ensures |parts| > 2 ==> StartsWith(Join(parts, sep), parts[0] + sep + parts[1] + sep)
  {
    var head := parts[0] + sep + parts[1];
    if |parts| > 2 {
      assert Join(parts, sep) == parts[0] + sep + (parts[1] + sep + Join(parts[2..], sep));
      assert Join(parts, sep) == head + sep + Join(parts[2..], sep);
      assert Join(parts, sep)[..|head + sep|] == head + sep;
    } else {
      assert parts[1..] == [parts[1]];
      assert Join(parts, sep) == head;
    }
    assert Join(parts, sep)[..|head|] == head;
  }

  /** A listing line built from a name and a value free of '=' reads back
      as that name and value. */
  lemma ParseVariableOfLine(name: string, value: string)
    requires '=' !in name && '=' !in value
    ensures ParseVariable(name + "= " + value) == Ok(Variable(name, value))
  {
    var parts := [name, value];
    assert parts[1..] == [value];
    assert Join(parts, "= ") == name + "= " + value;
    JoinSplitRoundTrip(parts, "= ");
  }

  /** The Name and Value lines of variable number `k`. */
  function VariableEntry(k: nat, v: Variable): string {
    "Variable\\" + NatToString(k) + "\\Name=" + v.name + "\n"
      + "Variable\\" + NatToString(k) + "\\Value=" + v.value + "\n"
  }

  /** The entries of the listing lines, numbered from `k`. */
  function VariableLines(lines: seq<string>, k: nat): (r: Result<string>)
    ensures r.Ok? <==> forall i :: 0 <= i < |lines| ==> Contains(lines[i], "= ")
    decreases |lines|
  {
    if |lines| == 0 then Ok("")
    else
      var v :- ParseVariable(lines[0]);
      var rest :- VariableLines(lines[1..], k + 1);
      Ok(VariableEntry(k, v) + rest)
  }

  /** Each listing line contributes its two entry lines, in order: a listing
      of '='-free names and values numbered from `k` is the entries of its
      first line followed by those of the rest. */
  lemma {:induction false} VariableLinesOfListing(names: seq<string>, values: seq<string>, k: nat)
    requires |names| == |values|
    requires forall i :: 0 <= i < |names| ==> '=' !in names[i] && '=' !in values[i]
    ensures VariableLines(seq(|names|, i requires 0 <= i < |names| => names[i] + "= " + values[i]), k)
              == Ok(EntriesOf(names, values, k))
    decreases |names|
  {
    var lines := seq(|names|, i requires 0 <= i < |names| => names[i] + "= " + values[i]);
    if |names| > 0 {
      ParseVariableOfLine(names[0], values[0]);
      var tail := seq(|names| - 1, i requires 0 <= i < |names| - 1 => names[1..][i] + "= " + values[1..][i]);
      assert lines[1..] == tail;
      VariableLinesOfListing(names[1..], values[1..], k + 1);
    }
  }

  /** The entries of the variables `names[i] = values[i]`, numbered from `k`. */
  function EntriesOf(names: seq<string>, values: seq<string>, k: nat): string
    requires |names| == |values|
    decreases |names|
  {
    if |names| == 0 then ""
    else VariableEntry(k, Variable(names[0], values[0])) + EntriesOf(names[1..], values[1..], k + 1)
  }

  /** One microcode array as the device lists it: its name and the text of
      its length. */
  datatype ArrayDecl = ArrayDecl(name: string, lengthText: string)

  /** One line `name[len]` of the array listing: the text before the first
      '[' and the text from there to the next ']'. A line without '[' has no
      second piece (IndexError). */
  function ParseArray(line: string): (r: Result<ArrayDecl>)
    ensures r.Ok? <==> '[' in line
    ensures r.Ok? ==> '[' !in r.value.name && ']' !in r.value.lengthText
  {
    var parts := Split(line, "[");
    SplitFindsSeparator(line, "[");
    ContainsChar(line, '[');
    if |parts| < 2 then
      Err(IndexError)
    else
      var len := Split(parts[1], "]")[0];
      ContainsChar(parts[0], '[');
      ContainsChar(len, ']');
      Ok(ArrayDecl(parts[0], len))
  }

  /** A listing line `name[n]` with a '['-free name reads back as that name
      and the length `n`. */
  lemma ParseArrayOfLine(name: string, n: nat)
    requires '[' !in name
    ensures ParseArray(name + "[" + NatToString(n) + "]") == Ok(ArrayDecl(name, NatToString(n)))
    ensures ParseNat(NatToString(n)) == Ok(n)
  {
    var digits := NatToString(n);
    assert '[' !in digits + "]" by {
      assert forall i :: 0 <= i < |digits| ==> IsDigit(digits[i]);
    }
    assert ']' !in digits by {
      assert forall i :: 0 <= i < |digits| ==> IsDigit(digits[i]);
    }
    SplitAfterPiece(name, digits + "]", "[");
    SplitWithoutSeparator(digits + "]", "[");
    assert name + "[" + (digits + "]") == name + "[" + digits + "]";
    SplitAfterPiece(digits, "", "]");
    assert digits + "]" + "" == digits + "]";
    ParseNatOfString(n);
  }

  /** The query for element `i` of an array: the device's variable query. */
  function ElementQuery(name: string, i: nat): string {
    name + "[" + NatToString(i) + "]" + "=?"
  }

  /** The device's answers for elements `0..n-1`, in index order. */
  function ElementAnswers(dev: Device, name: string, n: nat): (answers: seq<string>)
    ensures |answers| == n
    ensures forall i :: 0 <= i < n ==> answers[i] == dev(ElementQuery(name, i))
  {
    seq(n, i requires 0 <= i < n => dev(ElementQuery(name, i)))
  }

  /** The element loop as the program writes it: every answer but the last
      is followed by ", ". Its result is the answers joined by ", ", with no
      trailing separator (and empty for an empty array). */
  method ReadArrayValues(dev: Device, name: string, n: nat) returns (values: string)
    ensures values == Join(ElementAnswers(dev, name, n), ", ")
  {
    ghost var answers := ElementAnswers(dev, name, n);
    values := "";
    for i := 0 to n
      invariant i == 0 ==> values == ""
      invariant 0 < i < n ==> values == Join(answers[..i], ", ") + ", "
      invariant 0 < i == n ==> values == Join(answers[..i], ", ")
    {
      var answer := dev(ElementQuery(name, i));
      assert answers[..i + 1] == answers[..i] + [answer];
      if i > 0 {
        JoinSnoc(answers[..i], answer, ", ");
      } else {
        assert answers[..1] == [answer];
      }
      if i != n - 1 {
        values := values + answer + ", ";
      } else {
        values := values + answer;
      }
    }
    assert answers[..n] == answers;
  }

  /** The Name, Size and Value lines of array number `k`; the Size line
      repeats the length as listed. */
  function ArrayEntry(k: nat, decl: ArrayDecl, values: string): string {
    "Array\\" + NatToString(k) + "\\Name=" + decl.name + "\n"
      + "Array\\" + NatToString(k) + "\\Size=" + decl.lengthText + "\n"
      + "Array\\" + NatToString(k) + "\\Value=" + values + "\n"
  }

  /** A listing line the program can read: it has a '[' and a length that
      is a number. */
  predicate ArrayLineOk(line: string) {
    ParseArray(line).Ok? && ParseNat(ParseArray(line).value.lengthText).Ok?
  }

  /** The entries of the array listing lines, numbered from `k`. */
  function ArrayLines(dev: Device, lines: seq<string>, k: nat): (r: Result<string>)
    ensures r.Ok? <==> forall i :: 0 <= i < |lines| ==> ArrayLineOk(lines[i])
    decreases |lines|
  {
    if |lines| == 0 then Ok("")
    else
      var decl :- ParseArray(lines[0]);
      var n :- ParseNat(decl.lengthText);
      var rest :- ArrayLines(dev, lines[1..], k + 1);
      Ok(ArrayEntry(k, decl, Join(ElementAnswers(dev, decl.name, n), ", ")) + rest)
  }

  /** The entries of the arrays `names[i][lengths[i]]`, numbered from `k`:
      each with its name, its length and its element answers joined by ", ". */
  function ArrayEntriesOf(dev: Device, names: seq<string>, lengths: seq<nat>, k: nat): string
    requires |names| == |lengths|
    decreases |names|
  {
    if |names| == 0 then ""
    else
      ArrayEntry(k, ArrayDecl(names[0], NatToString(lengths[0])),
                 Join(ElementAnswers(dev, names[0], lengths[0]), ", "))
        + ArrayEntriesOf(dev, names[1..], lengths[1..], k + 1)
  }

  /** The listing lines `name[n]` of '['-free names. */
  function ArrayListing(names: seq<string>, lengths: seq<nat>): (lines: seq<string>)
    requires |names| == |lengths|
    ensures |lines| == |names|
    ensures forall i :: 0 <= i < |names| ==> lines[i] == names[i] + "[" + NatToString(lengths[i]) + "]"
  {
    seq(|names|, i requires 0 <= i < |names| => names[i] + "[" + NatToString(lengths[i]) + "]")
  }

  /** Each listing line `name[n]` contributes its Name, Size and Value lines,
      in order: the Size line is `n` and the Value line the n element answers
      of that array joined by ", ". */
  lemma {:induction false} ArrayLinesOfListing(dev: Device, names: seq<string>, lengths: seq<nat>, k: nat)
    requires |names| == |lengths|
    requires forall i :: 0 <= i < |names| ==> '[' !in names[i]
    ensures ArrayLines(dev, ArrayListing(names, lengths), k) == Ok(ArrayEntriesOf(dev, names, lengths, k))
    decreases |names|
  {
    var lines := ArrayListing(names, lengths);
    if |names| > 0 {
      ParseArrayOfLine(names[0], lengths[0]);
      assert lines[1..] == ArrayListing(names[1..], lengths[1..]);
      ArrayLinesOfListing(dev, names[1..], lengths[1..], k + 1);
    }
  }

  /** Array `name[n]` has the n element answers as its values, which read
      back one by one when none of them holds a comma. */
  lemma ArrayValuesReadBack(dev: Device, name: string, n: nat)
    requires n >= 1
    requires forall i :: 0 <= i < n ==> ',' !in dev(ElementQuery(name, i))
    ensures Split(Join(ElementAnswers(dev, name, n), ", "), ", ") == ElementAnswers(dev, name, n)
  {
    JoinSplitRoundTrip(ElementAnswers(dev, name, n), ", ");
  }

  const VariableHeader: string := "Variable\\size="
  const ArrayHeader: string := "Array\\size="

  /** The data section: the variable count and entries, then the array
      count and entries, then a blank line. */
  function Data(variables: seq<string>, arrays: seq<string>, dev: Device): (r: Result<string>)
    ensures r.Ok? <==> && (forall i :: 0 <= i < |variables| ==> Contains(variables[i], "= "))
                       && (forall i :: 0 <= i < |arrays| ==> ArrayLineOk(arrays[i]))
    ensures r.Ok? ==> StartsWith(r.value, "[Data]\n" + VariableHeader + NatToString(|variables|) + "\n")
    ensures r.Ok? ==> EndsWithChar(r.value, '\n')
    ensures r.Ok? ==>
              r.value == "[Data]\n" + VariableHeader + NatToString(|variables|) + "\n"
                         + VariableLines(variables, 1).value
                         + ArrayHeader + NatToString(|arrays|) + "\n"
                         + ArrayLines(dev, arrays, 1).value + "\n"
  {
    var variableLines :- VariableLines(variables, 1);
    var arrayLines :- ArrayLines(dev, arrays, 1);
    var head := "[Data]\n" + VariableHeader + NatToString(|variables|) + "\n";
    var data := head + variableLines + ArrayHeader + NatToString(|arrays|) + "\n" + arrayLines + "\n";
    assert data[..|head|] == head;
    Ok(data)
  }

  /** A listing of `name= value` variables and `name[n]` arrays gives the
      variable count, the Name and Value lines of each variable, the array
      count, the Name, Size and Value lines of each array, and a blank line. */
  lemma DataOfListing(dev: Device, names: seq<string>, values: seq<string>,
                      arrayNames: seq<string>, lengths: seq<nat>)
    requires |names| == |values| && |arrayNames| == |lengths|
    requires forall i :: 0 <= i < |names| ==> '=' !in names[i] && '=' !in values[i]
    requires forall i :: 0 <= i < |arrayNames| ==> '[' !in arrayNames[i]
    ensures var variables := seq(|names|, i requires 0 <= i < |names| => names[i] + "= " + values[i]);
            Data(variables, ArrayListing(arrayNames, lengths), dev)
              == Ok("[Data]\n" + VariableHeader + NatToString(|names|) + "\n"
                    + EntriesOf(names, values, 1)
                    + ArrayHeader + NatToString(|arrayNames|) + "\n"
                    + ArrayEntriesOf(dev, arrayNames, lengths, 1) + "\n")
  {
    VariableLinesOfListing(names, values, 1);
    ArrayLinesOfListing(dev, arrayNames, lengths, 1);
  }

  /** A controller with no variables and no arrays gives two zero counts. */
  lemma DataEmpty(dev: Device)
    ensures Data([], [], dev) == Ok("[Data]\nVariable\\size=0\nArray\\size=0\n\n")
  {
    assert NatToString(0) == "0";
    assert VariableLines([], 1) == Ok("");
    assert ArrayLines(dev, [], 1) == Ok("");
    var head := "[Data]\n" + VariableHeader + "0" + "\n";
    assert head == "[Data]\nVariable\\size=0\n";
    var body := head + "" + ArrayHeader + "0" + "\n";
    assert body == "[Data]\nVariable\\size=0\nArray\\size=0\n";
    assert body + "" + "\n" == "[Data]\nVariable\\size=0\nArray\\size=0\n\n";
  }

  /** The `Device=` field: the first seven characters of the firmware
      version, each '8' written as 'x'. */
  function DeviceName(firmware: string): (d: string)
    ensures |d| == if |firmware| < 7 then |firmware| else 7
    ensures forall i :: 0 <= i < |d| ==> d[i] == if firmware[i] == '8' then 'x' else firmware[i]
    ensures '8' !in d
  {
    var head := if |firmware| < 7 then firmware else firmware[..7];
    ReplaceCharIsMap(head, '8', 'x');
    ReplaceCharRemoves(head, '8', "x");
    ReplaceAll(head, "8", "x")
  }

  /** The system-information section; the axis count is the sixth
      character of the firmware version, so a shorter version is an
      IndexError. */
  function SystemInfo(firmware: string, serial: string): (r: Result<string>)
    ensures r.Ok? <==> |firmware| >= 6
    ensures r.Ok? ==> StartsWith(r.value, "[SystemInfo]\n") && EndsWithChar(r.value, '\n')
  {
    if |firmware| < 6 then
      Err(IndexError)
    else
      var firmwareLine := "Firmware=" + firmware + "\n";
      var serialLine := "Serial=" + serial + "\n";
      var deviceLine := "Device=" + DeviceName(firmware) + "\n";
      var axisLine := "Axis=" + [firmware[5]] + "\n";
      var info := "[SystemInfo]\n" + firmwareLine + serialLine + deviceLine + axisLine + "\n";
      assert info[..|"[SystemInfo]\n"|] == "[SystemInfo]\n";
      Ok(info)
  }

  /** Read line by line, the section is its title, the four fields and a
      blank line, provided the device reports hold no newline. */
  lemma SystemInfoLines(firmware: string, serial: string)
    requires |firmware| >= 6 && '\n' !in firmware && '\n' !in serial
    ensures SystemInfo(firmware, serial).Ok?
    ensures Split(SystemInfo(firmware, serial).value, "\n")
              == ["[SystemInfo]", "Firmware=" + firmware, "Serial=" + serial,
                  "Device=" + DeviceName(firmware), "Axis=" + [firmware[5]], "", ""]
  {
    var device := DeviceName(firmware);
    assert '\n' !in device by {
      forall i | 0 <= i < |device|
        ensures device[i] != '\n'
      {
        assert device[i] == if firmware[i] == '8' then 'x' else firmware[i];
      }
    }
    var lines := ["[SystemInfo]", "Firmware=" + firmware, "Serial=" + serial,
                  "Device=" + device, "Axis=" + [firmware[5]], "", ""];
    JoinFiveLines("[SystemInfo]", "Firmware=" + firmware, "Serial=" + serial,
                  "Device=" + device, "Axis=" + [firmware[5]]);
    assert "[SystemInfo]" + "\n" == "[SystemInfo]\n";
    JoinSplitRoundTrip(lines, "\n");
  }

  /** Five lines and a blank line, joined by newlines. */
  lemma JoinFiveLines(a: string, b: string, c: string, d: string, e: string)
    ensures Join([a, b, c, d, e, "", ""], "\n")
              == (a + "\n") + (b + "\n") + (c + "\n") + (d + "\n") + (e + "\n") + "\n"
  {
    var lines := [a, b, c, d, e, "", ""];
    assert lines[6..] == [""];
    assert lines[5..][1..] == lines[6..];
    assert Join(lines[5..], "\n") == "\n" by {
      assert "" + "\n" + "" == "\n";
    }
    assert lines[4..][1..] == lines[5..];
    assert lines[3..][1..] == lines[4..];
    assert lines[2..][1..] == lines[3..];
    assert lines[1..][1..] == lines[2..];
    assert Join(lines[4..], "\n") == e + "\n" + "\n";
    assert Join(lines[3..], "\n") == d + "\n" + (e + "\n" + "\n");
    assert Join(lines[2..], "\n") == c + "\n" + (d + "\n" + (e + "\n" + "\n"));
    assert Join(lines[1..], "\n") == b + "\n" + (c + "\n" + (d + "\n" + (e + "\n" + "\n")));
  }

  const ProgramHeader: string := "[Program]\nProgram=\""

  /** The microcode on one line: each CR LF becomes the two characters `\n`. */
  function FlattenMicrocode(code: string): string {
    ReplaceAll(code, "\r\n", "\\n")
  }

  /** The program section: the flattened microcode between double quotes. */
  function Program(code: string): (r: string)
    ensures StartsWith(r, ProgramHeader)
    ensures EndsWithChar(r, '"')
  {
    var program := ProgramHeader + FlattenMicrocode(code) + "\"";
    assert program[..|ProgramHeader|] == ProgramHeader;
    program
  }

  /** Flattening loses nothing for microcode without a backslash: turning
      each `\n` back into CR LF restores the code. */
  lemma FlattenMicrocodeRoundTrip(code: string)
    requires '\\' !in code
    ensures ReplaceAll(FlattenMicrocode(code), "\\n", "\r\n") == code
  {
    var pieces := Split(code, "\r\n");
    ReplaceAllIsSplitJoin(code, "\r\n", "\\n");
    SplitJoinRoundTrip(code, "\r\n");
    forall k | 0 <= k < |pieces|
      ensures '\\' !in pieces[k]
    {
      PieceOfJoin(pieces, k, "\r\n");
      assert multiset(pieces[k])['\\'] <= multiset(code)['\\'];
      assert '\\' !in multiset(code);
    }
    JoinSplitRoundTrip(pieces, "\\n");
    ReplaceAllIsSplitJoin(Join(pieces, "\\n"), "\\n", "\r\n");
  }

  /** An element present in the first `n` entries is first found there. */
  lemma IndexOfBefore(xs: seq<string>, x: string, n: nat)
    requires n <= |xs| && x in xs[..n]
    ensures IndexOf(xs, x).Ok? && IndexOf(xs, x).value < n
  {
  }

  /** An entry not among the entries before it is the first occurrence of
      its value. */
  lemma IndexOfAt(xs: seq<string>, n: nat)
    requires n < |xs| && xs[n] !in xs[..n]
    ensures IndexOf(xs, xs[n]) == Ok(n)
  {
  }

  /** `networks` holds the distinct names of `all[..n]`, ordered by first
      appearance. */
  ghost predicate Collected(all: seq<string>, networks: seq<string>, n: nat)
    requires n <= |all|
  {
    && (forall i, j :: 0 <= i < j < |networks| ==> networks[i] != networks[j])
    && (forall x :: x in networks <==> x in all[..n])
    && (forall i :: 0 <= i < |networks| ==> networks[i] in all && IndexOf(all, networks[i]).value < n)
    && (forall i, j :: 0 <= i < j < |networks| ==>
          IndexOf(all, networks[i]).value < IndexOf(all, networks[j]).value)
  }

  /** One step of `GetAllNetworks`: a name not seen yet is appended. */
  lemma CollectedStep(all: seq<string>, networks: seq<string>, n: nat)
    requires n < |all| && Collected(all, networks, n)
    ensures all[n] in networks ==> Collected(all, networks, n + 1)
    ensures all[n] !in networks ==> Collected(all, networks + [all[n]], n + 1)
  {
    assert all[..n + 1] == all[..n] + [all[n]];
    if all[n] !in networks {
      IndexOfAt(all, n);
      var next := networks + [all[n]];
      assert forall i :: 0 <= i < |networks| ==> next[i] == networks[i];
    }
  }

  /** The networks of the controller-box table, each once, in order of
      first appearance. */
  method GetAllNetworks(box: BoxFile) returns (networks: seq<string>)
    ensures forall i, j :: 0 <= i < j < |networks| ==> networks[i] != networks[j]
    ensures forall x :: x in networks <==> x in box.networks
    ensures forall i, j :: 0 <= i < j < |networks| ==>
              IndexOf(box.networks, networks[i]).value < IndexOf(box.networks, networks[j]).value
  {
    var all := box.networks;
    networks := [];
    for n := 0 to |all|
      invariant Collected(all, networks, n)
    {
      CollectedStep(all, networks, n);
      if all[n] !in networks {
        networks := networks + [all[n]];
      }
    }
    assert all[..|all|] == all;
  }
}
