/** The rule files: the controller list (network, IP address, name per
    controller) and the command table (one row per device parameter, with
    its firmwares, read style, read template, write style and output
    template). Both are held as parallel columns, each cleaned of empty
    cells independently, exactly as the program keeps them.
 */
module OsmosFiles {
  import opened Results
  import opened Strings

  /** How a parameter is read from the device (column "type-getparam"). */
  datatype ReadStyle =
    | ReadStandard
    | ReadUnique
    | ReadMessage
    | ReadVector
    | ReadUnknown(tag: string)

  /** How a parameter is written into the backup (column "type-wrtbak"). */
  datatype WriteStyle =
    | WriteStandard
    | WriteSized
    | WriteSpecial
    | WriteUnique
    | WriteVector
    | WriteUnknown(tag: string)

  function ReadStyleTag(s: ReadStyle): string {
    match s
    case ReadStandard => "Standard"
    case ReadUnique => "Unique"
    case ReadMessage => "Message"
    case ReadVector => "Vector"
    case ReadUnknown(tag) => tag
  }

  function WriteStyleTag(s: WriteStyle): string {
    match s
    case WriteStandard => "Standard"
    case WriteSized => "Sized"
    case WriteSpecial => "Special"
    case WriteUnique => "Unique"
    case WriteVector => "Vector"
    case WriteUnknown(tag) => tag
  }

  /** The cell text is compared with each known tag; anything else is kept
      as an unknown style carrying its text. */
  function ParseReadStyle(tag: string): (s: ReadStyle)
    ensures ReadStyleTag(s) == tag
    ensures s.ReadUnknown? <==> tag !in {"Standard", "Unique", "Message", "Vector"}
  {
    if tag == "Standard" then ReadStandard
    else if tag == "Unique" then ReadUnique
    else if tag == "Message" then ReadMessage
    else if tag == "Vector" then ReadVector
    else ReadUnknown(tag)
  }

  function ParseWriteStyle(tag: string): (s: WriteStyle)
    ensures WriteStyleTag(s) == tag
    ensures s.WriteUnknown? <==> tag !in {"Standard", "Sized", "Special", "Unique", "Vector"}
  {
    if tag == "Standard" then WriteStandard
    else if tag == "Sized" then WriteSized
    else if tag == "Special" then WriteSpecial
    else if tag == "Unique" then WriteUnique
    else if tag == "Vector" then WriteVector
    else WriteUnknown(tag)
  }

  /** The command table, one cleaned column per field. */
  datatype CommandFile = CommandFile(
    firmwares: seq<string>,     // "Firmware": comma-space separated firmware names
    readTypes: seq<string>,     // "type-getparam"
    params: seq<string>,        // "parameter"
    getFormats: seq<string>,    // "get": query template, `x` stands for the axis
    setFormats: seq<string>,    // "set"
    writeTypes: seq<string>,    // "type-wrtbak"
    writeFormats: seq<string>)  // "write": output template, `v` stands for a value

  /** The controller list. */
  datatype BoxFile = BoxFile(
    networks: seq<string>,      // "network"
    ips: seq<string>,           // "Adresse-IP"
    names: seq<string>)         // "Racine-nom-CVS"

  /** `xs` without any element equal to `x`, the others in their order. */
  function FileCleanup(xs: seq<string>, x: string): (r: seq<string>)
    ensures x !in r
    decreases |xs|
  {
    if |xs| == 0 then []
    else (if xs[0] == x then [] else [xs[0]]) + FileCleanup(xs[1..], x)
  }

  /** Cleaning drops exactly the occurrences of the element: the length falls
      by its count and every other element keeps its count. */
  lemma {:induction false} FileCleanupCounts(xs: seq<string>, x: string)
    ensures |FileCleanup(xs, x)| == |xs| - multiset(xs)[x]
    ensures forall y :: y != x ==> multiset(FileCleanup(xs, x))[y] == multiset(xs)[y]
    decreases |xs|
  {
    if |xs| > 0 {
      assert xs == [xs[0]] + xs[1..];
      FileCleanupCounts(xs[1..], x);
    }
  }

  /** Cleaning distributes over concatenation: the kept elements keep their
      relative order. */
  lemma {:induction false} FileCleanupConcat(a: seq<string>, b: seq<string>, x: string)
    ensures FileCleanup(a + b, x) == FileCleanup(a, x) + FileCleanup(b, x)
    decreases |a|
  {
    if |a| > 0 {
      var head: seq<string> := if a[0] == x then [] else [a[0]];
      assert (a + b)[0] == a[0];
      assert (a + b)[1..] == a[1..] + b;
      assert FileCleanup(a + b, x) == head + FileCleanup(a[1..] + b, x);
      FileCleanupConcat(a[1..], b, x);
      assert FileCleanup(a, x) == head + FileCleanup(a[1..], x);
    } else {
      assert a + b == b;
    }
  }

  /** Cleaning twice is cleaning once. */
  lemma {:induction false} FileCleanupIdempotent(xs: seq<string>, x: string)
    ensures FileCleanup(FileCleanup(xs, x), x) == FileCleanup(xs, x)
    decreases |xs|
  {
    if |xs| > 0 {
      var head: seq<string> := if xs[0] == x then [] else [xs[0]];
      FileCleanupIdempotent(xs[1..], x);
      FileCleanupConcat(head, FileCleanup(xs[1..], x), x);
      if xs[0] != x {
        assert FileCleanup(head, x) == head by {
          assert head[1..] == [];
        }
      }
    }
  }

  /** A cleaned column of the column map; a missing column is a KeyError. */
  function CleanColumn(cols: map<string, seq<string>>, key: string): Result<seq<string>> {
    if key in cols then Ok(FileCleanup(cols[key], "")) else Err(KeyError(key))
  }

  const CommandColumns: set<string> :=
    {"Firmware", "type-getparam", "parameter", "get", "set", "type-wrtbak", "write"}

  const BoxColumns: set<string> := {"network", "Adresse-IP", "Racine-nom-CVS"}

  predicate NoBlankCells(cmd: CommandFile) {
    && "" !in cmd.firmwares && "" !in cmd.readTypes && "" !in cmd.params
    && "" !in cmd.getFormats && "" !in cmd.setFormats
    && "" !in cmd.writeTypes && "" !in cmd.writeFormats
  }

  /** The command table built from the column map of the command file. */
  function LoadCommandFile(cols: map<string, seq<string>>): (r: Result<CommandFile>)
    ensures r.Ok? <==> CommandColumns <= cols.Keys
    ensures r.Ok? ==> NoBlankCells(r.value)
    ensures r.Ok? ==> && r.value.firmwares == FileCleanup(cols["Firmware"], "")
                      && r.value.readTypes == FileCleanup(cols["type-getparam"], "")
                      && r.value.params == FileCleanup(cols["parameter"], "")
                      && r.value.getFormats == FileCleanup(cols["get"], "")
                      && r.value.setFormats == FileCleanup(cols["set"], "")
                      && r.value.writeTypes == FileCleanup(cols["type-wrtbak"], "")
                      && r.value.writeFormats == FileCleanup(cols["write"], "")
  {
    var firmwares :- CleanColumn(cols, "Firmware");
    var readTypes :- CleanColumn(cols, "type-getparam");
    var params :- CleanColumn(cols, "parameter");
    var getFormats :- CleanColumn(cols, "get");
    var setFormats :- CleanColumn(cols, "set");
    var writeTypes :- CleanColumn(cols, "type-wrtbak");
    var writeFormats :- CleanColumn(cols, "write");
    Ok(CommandFile(firmwares, readTypes, params, getFormats, setFormats, writeTypes, writeFormats))
  }

  /** The controller list built from the column map of the controller file. */
  function LoadBoxFile(cols: map<string, seq<string>>): (r: Result<BoxFile>)
    ensures r.Ok? <==> BoxColumns <= cols.Keys
    ensures r.Ok? ==> "" !in r.value.networks && "" !in r.value.ips && "" !in r.value.names
    ensures r.Ok? ==> && r.value.networks == FileCleanup(cols["network"], "")
                      && r.value.ips == FileCleanup(cols["Adresse-IP"], "")
                      && r.value.names == FileCleanup(cols["Racine-nom-CVS"], "")
  {
    var networks :- CleanColumn(cols, "network");
    var ips :- CleanColumn(cols, "Adresse-IP");
    var names :- CleanColumn(cols, "Racine-nom-CVS");
    Ok(BoxFile(networks, ips, names))
  }

  /** Every parameter of the command file, empty cells removed. */
  function CdeFileParamList(cols: map<string, seq<string>>): (r: Result<seq<string>>)
    ensures r.Ok? <==> "parameter" in cols
    ensures r.Ok? ==> "" !in r.value
    ensures r.Ok? ==> forall p :: p != "" ==> multiset(r.value)[p] == multiset(cols["parameter"])[p]
    ensures r.Ok? ==> r.value == FileCleanup(cols["parameter"], "")
  {
    if "parameter" in cols then FileCleanupCounts(cols["parameter"], ""); CleanColumn(cols, "parameter")
    else CleanColumn(cols, "parameter")
  }

  /** `xs.index(x)`: the first position of `x`, ValueError when absent. */
  function IndexOf(xs: seq<string>, x: string): (r: Result<nat>)
    ensures r.Ok? <==> x in xs
    ensures !r.Ok? ==> r == Err(NotInList(x))
    ensures r.Ok? ==> r.value < |xs| && xs[r.value] == x && x !in xs[..r.value]
    decreases |xs|
  {
    if |xs| == 0 then Err(NotInList(x))
    else if xs[0] == x then Ok(0)
    else
      match IndexOf(xs[1..], x)
      case Ok(i) =>
        assert xs[..i + 1] == [xs[0]] + xs[1..][..i];
        Ok(i + 1)
      case Err(e) => Err(e)
  }

  /** Positions `i` of `keys` with `keys[i] == key`, in increasing order. */
  function MatchIndices(keys: seq<string>, key: string): (idx: seq<nat>)
    ensures forall k :: 0 <= k < |idx| ==> idx[k] < |keys| && keys[idx[k]] == key
    decreases |keys|
  {
    if |keys| == 0 then []
    else
      var n := |keys| - 1;
      MatchIndices(keys[..n], key) + (if keys[n] == key then [n] else [])
  }

  /** There are as many match positions as occurrences of the key. */
  lemma {:induction false} MatchIndicesCount(keys: seq<string>, key: string)
    ensures |MatchIndices(keys, key)| == multiset(keys)[key]
    decreases |keys|
  {
    if |keys| > 0 {
      var n := |keys| - 1;
      assert keys == keys[..n] + [keys[n]];
      MatchIndicesCount(keys[..n], key);
    }
  }

  predicate Increasing(idx: seq<nat>) {
    forall k, l :: 0 <= k < l < |idx| ==> idx[k] < idx[l]
  }

  /** The match positions are strictly increasing: file order is kept. */
  lemma {:induction false} MatchIndicesIncreasing(keys: seq<string>, key: string)
    ensures Increasing(MatchIndices(keys, key))
    decreases |keys|
  {
    if |keys| > 0 {
      var n := |keys| - 1;
      var prefix := MatchIndices(keys[..n], key);
      MatchIndicesIncreasing(keys[..n], key);
      assert MatchIndices(keys, key) == prefix + (if keys[n] == key then [n] else []);
      var idx := MatchIndices(keys, key);
      forall k, l | 0 <= k < l < |idx|
        ensures idx[k] < idx[l]
      {
        if l < |prefix| {
          assert idx[k] == prefix[k] && idx[l] == prefix[l];
          assert prefix[k] < prefix[l];
        } else {
          assert idx[k] == prefix[k] < n && idx[l] == n;
        }
      }
    }
  }

  /** Every position holding the key is a match position. */
  lemma {:induction false} MatchIndicesComplete(keys: seq<string>, key: string)
    ensures forall i :: 0 <= i < |keys| && keys[i] == key ==> i in MatchIndices(keys, key)
    decreases |keys|
  {
    if |keys| > 0 {
      var n := |keys| - 1;
      MatchIndicesComplete(keys[..n], key);
      forall i | 0 <= i < |keys| && keys[i] == key
        ensures i in MatchIndices(keys, key)
      {
        if i < n {
          assert keys[..n][i] == keys[i];
        }
      }
    }
  }

  /** The match positions of one more key are those of the shorter list,
      plus its last position when that key matches. */
  lemma MatchIndicesStep(keys: seq<string>, key: string, i: nat)
    requires i < |keys|
    ensures MatchIndices(keys[..i + 1], key)
              == MatchIndices(keys[..i], key) + (if keys[i] == key then [i] else [])
  {
    assert keys[..i + 1][..i] == keys[..i];
  }

  /** `out` holds `values[m[k]]` for every match position `m[k]`. */
  predicate Gathered(out: seq<string>, values: seq<string>, m: seq<nat>) {
    |out| == |m| && forall k :: 0 <= k < |m| ==> m[k] < |values| && out[k] == values[m[k]]
  }

  /** One step of `SelectWhere`: position `i` extends the gathered values
      exactly when it matches. */
  lemma GatheredStep(out: seq<string>, keys: seq<string>, values: seq<string>, key: string, i: nat)
    requires i < |keys|
    requires Gathered(out, values, MatchIndices(keys[..i], key))
    ensures keys[i] != key ==> Gathered(out, values, MatchIndices(keys[..i + 1], key))
    ensures keys[i] == key && i < |values| ==>
              Gathered(out + [values[i]], values, MatchIndices(keys[..i + 1], key))
  {
    MatchIndicesStep(keys, key, i);
  }

  /** `values[i]` for every `i` with `keys[i] == key`, in index order; an
      IndexError when a matching position is past the end of `values`
      (the columns are cleaned independently, so they may differ in length). */
  method SelectWhere(keys: seq<string>, values: seq<string>, key: string) returns (r: Result<seq<string>>)
    ensures r.Ok? <==> forall i :: 0 <= i < |keys| && keys[i] == key ==> i < |values|
    ensures r.Ok? ==> Gathered(r.value, values, MatchIndices(keys, key))
  {
    var out: seq<string> := [];
    var i := 0;
    while i < |keys|
      invariant 0 <= i <= |keys|
      invariant forall j :: 0 <= j < i && keys[j] == key ==> j < |values|
      invariant Gathered(out, values, MatchIndices(keys[..i], key))
    {
      GatheredStep(out, keys, values, key, i);
      if keys[i] == key {
        if i >= |values| {
          return Err(IndexError);
        }
        out := out + [values[i]];
      }
      i := i + 1;
    }
    assert keys[..i] == keys;
    return Ok(out);
  }

  /** The IP addresses of the controllers of one network, in file order. */
  method CBFileNtwrkFilter(box: BoxFile, network: string) returns (r: Result<seq<string>>)
    ensures r.Ok? ==> |r.value| == multiset(box.networks)[network]
    ensures r.Ok? ==> |r.value| == |MatchIndices(box.networks, network)| && forall k :: 0 <= k < |r.value| ==>
              var i := MatchIndices(box.networks, network)[k];
              box.networks[i] == network && i < |box.ips| && r.value[k] == box.ips[i]
    ensures r.Ok? <==> forall i :: 0 <= i < |box.networks| && box.networks[i] == network ==> i < |box.ips|
  {
    r := SelectWhere(box.networks, box.ips, network);
    MatchIndicesCount(box.networks, network);
  }

  /** The parameters whose firmware cell is exactly `fw`, in file order. */
  method CdeFileCmdFilter(cmd: CommandFile, fw: string) returns (r: Result<seq<string>>)
    ensures r.Ok? ==> |r.value| == multiset(cmd.firmwares)[fw]
    ensures r.Ok? ==> |r.value| == |MatchIndices(cmd.firmwares, fw)| && forall k :: 0 <= k < |r.value| ==>
              var i := MatchIndices(cmd.firmwares, fw)[k];
              cmd.firmwares[i] == fw && i < |cmd.params| && r.value[k] == cmd.params[i]
    ensures r.Ok? <==> forall i :: 0 <= i < |cmd.firmwares| && cmd.firmwares[i] == fw ==> i < |cmd.params|
  {
    r := SelectWhere(cmd.firmwares, cmd.params, fw);
    MatchIndicesCount(cmd.firmwares, fw);
  }

  /** The name of the first controller with address `ip`, None when no
      controller has it. */
  function CBFileGetName(box: BoxFile, ip: string): (r: Result<Option<string>>)
    ensures r == Ok(None) <==> ip !in box.ips
    ensures r.Ok? && r.value.Some? ==>
              exists i :: 0 <= i < |box.ips| && box.ips[i] == ip && ip !in box.ips[..i]
                          && i < |box.names| && r.value.value == box.names[i]
    ensures r.Err? ==> r == Err(IndexError)
    ensures r.Err? <==> ip in box.ips && IndexOf(box.ips, ip).value >= |box.names|
    ensures ip in box.ips && IndexOf(box.ips, ip).value < |box.names| ==>
              r == Ok(Some(box.names[IndexOf(box.ips, ip).value]))
  {
    match IndexOf(box.ips, ip)
    case Err(_) => Ok(None)
    case Ok(i) => if i < |box.names| then Ok(Some(box.names[i])) else Err(IndexError)
  }

  /** The row of a parameter: its first position in the parameter column. */
  function RowIndex(cmd: CommandFile, param: string): (r: Result<nat>)
    ensures r.Ok? <==> param in cmd.params
    ensures r.Err? ==> r == Err(NotInList(param))
    ensures r.Ok? ==> r.value < |cmd.params| && cmd.params[r.value] == param && param !in cmd.params[..r.value]
  {
    IndexOf(cmd.params, param)
  }

  /** The read and write styles on the parameter's row. */
  function CdeFileReadWriteType(cmd: CommandFile, param: string): (r: Result<(ReadStyle, WriteStyle)>)
    ensures param !in cmd.params ==> r == Err(NotInList(param))
    ensures r.Ok? <==> (RowIndex(cmd, param).Ok? && RowIndex(cmd, param).value < |cmd.readTypes|
                                                  && RowIndex(cmd, param).value < |cmd.writeTypes|)
    ensures r.Ok? ==> var i := RowIndex(cmd, param).value;
              ReadStyleTag(r.value.0) == cmd.readTypes[i] && WriteStyleTag(r.value.1) == cmd.writeTypes[i]
  {
    var i :- RowIndex(cmd, param);
    if i < |cmd.readTypes| && i < |cmd.writeTypes| then
      Ok((ParseReadStyle(cmd.readTypes[i]), ParseWriteStyle(cmd.writeTypes[i])))
    else
      Err(IndexError)
  }

  /** The firmwares of the parameter's row: its cell split on ", ". */
  function CdeFileGetFWAvail(cmd: CommandFile, param: string): (r: Result<seq<string>>)
    ensures param !in cmd.params ==> r == Err(NotInList(param))
    ensures r.Ok? <==> RowIndex(cmd, param).Ok? && RowIndex(cmd, param).value < |cmd.firmwares|
    ensures r.Ok? ==> Join(r.value, ", ") == cmd.firmwares[RowIndex(cmd, param).value]
    ensures r.Ok? ==> forall k :: 0 <= k < |r.value| ==> !Contains(r.value[k], ", ")
  {
    var i :- RowIndex(cmd, param);
    if i < |cmd.firmwares| then
      SplitJoinRoundTrip(cmd.firmwares[i], ", ");
      Ok(Split(cmd.firmwares[i], ", "))
    else
      Err(IndexError)
  }

  const DefaultAxis: string := "A"

  /** The query to send for a parameter on an axis: Unique and Message rows
      give their template as it is, every other style puts the axis in
      place of each `x`. */
  function GetFormattedCmd(cmd: CommandFile, param: string, axis: string): (r: Result<string>)
    ensures param !in cmd.params ==> r == Err(NotInList(param))
    ensures r.Ok? <==> RowIndex(cmd, param).Ok? && RowIndex(cmd, param).value < |cmd.readTypes|
                                                && RowIndex(cmd, param).value < |cmd.getFormats|
  {
    var i :- RowIndex(cmd, param);
    if i < |cmd.readTypes| && i < |cmd.getFormats| then
      match ParseReadStyle(cmd.readTypes[i])
      case ReadUnique => Ok(cmd.getFormats[i])
      case ReadMessage => Ok(cmd.getFormats[i])
      case _ => Ok(ReplaceAll(cmd.getFormats[i], "x", axis))
    else
      Err(IndexError)
  }

  /** Unique and Message queries ignore the axis, and give the template verbatim. */
  lemma GetFormattedCmdIgnoresAxis(cmd: CommandFile, param: string, a1: string, a2: string)
    requires CdeFileReadWriteType(cmd, param).Ok?
    requires CdeFileReadWriteType(cmd, param).value.0 in {ReadUnique, ReadMessage}
    ensures GetFormattedCmd(cmd, param, a1) == GetFormattedCmd(cmd, param, a2)
    ensures GetFormattedCmd(cmd, param, a1).Ok? ==>
              GetFormattedCmd(cmd, param, a1).value == cmd.getFormats[RowIndex(cmd, param).value]
  {
  }

  /** Every other style replaces each `x` of the template by the axis: the
      query is the template cut at every `x` and glued with the axis, and no
      `x` is left when the axis has none. */
  lemma GetFormattedCmdSubstitutes(cmd: CommandFile, param: string, axis: string)
    requires CdeFileReadWriteType(cmd, param).Ok?
    requires CdeFileReadWriteType(cmd, param).value.0 !in {ReadUnique, ReadMessage}
    requires GetFormattedCmd(cmd, param, axis).Ok?
    ensures var t := cmd.getFormats[RowIndex(cmd, param).value];
            GetFormattedCmd(cmd, param, axis).value == Join(Split(t, "x"), axis)
    ensures 'x' !in axis ==> 'x' !in GetFormattedCmd(cmd, param, axis).value
  {
    var t := cmd.getFormats[RowIndex(cmd, param).value];
    ReplaceAllIsSplitJoin(t, "x", axis);
    if 'x' !in axis {
      ReplaceCharRemoves(t, 'x', axis);
    }
  }

  /** The first `n` pieces, or all of them when there are fewer. */
  function Take(pieces: seq<string>, n: nat): (r: seq<string>)
    ensures |r| == if n < |pieces| then n else |pieces|
    ensures r <= pieces
  {
    if n < |pieces| then pieces[..n] else pieces
  }

  /** Template pieces re-joined one per line. */
  function JoinLines(pieces: seq<string>): string {
    Join(pieces, "\n")
  }

  /** The output lines for a parameter: for a Sized row the template is cut
      at each two-character `\n` marker and only the first `size + 1` pieces
      are kept, one per line; other rows keep the whole template. Quotes `'`
      become `"` and the result ends with a newline. */
  function WriteFormattedParam(cmd: CommandFile, param: string, size: nat): (r: Result<string>)
    ensures param !in cmd.params ==> r == Err(NotInList(param))
    ensures r.Ok? <==> RowIndex(cmd, param).Ok? && RowIndex(cmd, param).value < |cmd.writeTypes|
                                                && RowIndex(cmd, param).value < |cmd.writeFormats|
    ensures r.Ok? ==> EndsWithChar(r.value, '\n')
    ensures r.Ok? ==> '\'' !in r.value
  {
    var i :- RowIndex(cmd, param);
    if i < |cmd.writeTypes| && i < |cmd.writeFormats| then
      var template := cmd.writeFormats[i];
      var body :=
        if ParseWriteStyle(cmd.writeTypes[i]) == WriteSized then
          JoinLines(Take(Split(template, "\\n"), size + 1))
        else
          template;
      ReplaceCharRemoves(body, '\'', "\"");
      Ok(ReplaceAll(body, "'", "\"") + "\n")
    else
      Err(IndexError)
  }

  /** A template of any style but Sized is kept whole: each `'` becomes `"`
      at its own position, every other character stays, and a newline ends it. */
  lemma WriteFormattedParamPlain(cmd: CommandFile, param: string, size: nat)
    requires CdeFileReadWriteType(cmd, param).Ok? && CdeFileReadWriteType(cmd, param).value.1 != WriteSized
    requires WriteFormattedParam(cmd, param, size).Ok?
    ensures WriteFormattedParam(cmd, param, size).value
              == MapChar(cmd.writeFormats[RowIndex(cmd, param).value], '\'', '"') + "\n"
  {
    var i := RowIndex(cmd, param).value;
    ReplaceCharIsMap(cmd.writeFormats[i], '\'', '"');
  }

  lemma {:induction false} MapCharKeepsOthers(s: string, a: char, b: char, c: char)
    requires c != a && c != b
    ensures multiset(MapChar(s, a, b))[c] == multiset(s)[c]
    decreases |s|
  {
    if |s| > 0 {
      MapCharKeepsOthers(s[1..], a, b, c);
      assert MapChar(s, a, b) == MapChar(s[..1], a, b) + MapChar(s[1..], a, b);
      assert s == s[..1] + s[1..];
    }
  }

  lemma {:induction false} JoinLinesCount(pieces: seq<string>)
    requires |pieces| >= 1
    requires forall k :: 0 <= k < |pieces| ==> '\n' !in pieces[k]
    ensures multiset(JoinLines(pieces))['\n'] == |pieces| - 1
    decreases |pieces|
  {
    if |pieces| > 1 {
      JoinLinesCount(pieces[1..]);
    }
  }

  /** A Sized template without real newlines gives exactly `size + 1`
      lines, or as many as it has pieces when it has fewer. */
  lemma SizedTemplateLines(cmd: CommandFile, param: string, size: nat)
    requires CdeFileReadWriteType(cmd, param).Ok? && CdeFileReadWriteType(cmd, param).value.1 == WriteSized
    requires WriteFormattedParam(cmd, param, size).Ok?
    requires '\n' !in cmd.writeFormats[RowIndex(cmd, param).value]
    ensures var pieces := Split(cmd.writeFormats[RowIndex(cmd, param).value], "\\n");
            multiset(WriteFormattedParam(cmd, param, size).value)['\n']
              == if size + 1 < |pieces| then size + 1 else |pieces|
  {
    var i := RowIndex(cmd, param).value;
    var template := cmd.writeFormats[i];
    var pieces := Split(template, "\\n");
    var kept := Take(pieces, size + 1);
    assert ParseWriteStyle(cmd.writeTypes[i]) == WriteSized;
    SplitJoinRoundTrip(template, "\\n");
    assert forall k :: 0 <= k < |pieces| ==> '\n' !in pieces[k] by {
      forall k | 0 <= k < |pieces|
        ensures '\n' !in pieces[k]
      {
        PieceOfJoin(pieces, k, "\\n");
        assert multiset(pieces[k])['\n'] <= multiset(template)['\n'];
        assert '\n' !in multiset(template);
      }
    }
    JoinLinesCount(kept);
    var body := JoinLines(kept);
    ReplaceCharIsMap(body, '\'', '"');
    MapCharKeepsOthers(body, '\'', '"', '\n');
  }

  /** Every piece of a join is a part of the joined text. */
  lemma {:induction false} PieceOfJoin(pieces: seq<string>, k: nat, sep: string)
    requires k < |pieces|
    ensures multiset(pieces[k]) <= multiset(Join(pieces, sep))
    decreases |pieces|
  {
    if |pieces| > 1 && k > 0 {
      PieceOfJoin(pieces[1..], k - 1, sep);
    }
  }

  /** The re-join as the program writes it: a piece gets its newline when
      its text differs from the last piece's text. */
  function JoinLinesAsWritten(pieces: seq<string>): string
    requires |pieces| > 0
  {
    JoinUnlessEqual(pieces, Last(pieces))
  }

  function JoinUnlessEqual(pieces: seq<string>, last: string): string
    decreases |pieces|
  {
    if |pieces| == 0 then []
    else pieces[0] + (if pieces[0] != last then "\n" else "") + JoinUnlessEqual(pieces[1..], last)
  }

  /** When no earlier piece repeats the last one, the written re-join is
      the line join. */
  lemma {:induction false} JoinAsWrittenAgrees(pieces: seq<string>, last: string)
    requires |pieces| > 0 && pieces[|pieces| - 1] == last
    requires forall k :: 0 <= k < |pieces| - 1 ==> pieces[k] != last
    ensures JoinUnlessEqual(pieces, last) == JoinLines(pieces)
    decreases |pieces|
  {
    if |pieces| > 1 {
      JoinAsWrittenAgrees(pieces[1..], last);
    }
  }

  /** The Sized output is the program's own value-comparing re-join whenever
      no kept piece before the last has the last piece's text; only a
      repeated last piece tells the two apart. */
  lemma WriteFormattedParamAsWritten(cmd: CommandFile, param: string, size: nat)
    requires CdeFileReadWriteType(cmd, param).Ok? && CdeFileReadWriteType(cmd, param).value.1 == WriteSized
    requires WriteFormattedParam(cmd, param, size).Ok?
    requires var kept := Take(Split(cmd.writeFormats[RowIndex(cmd, param).value], "\\n"), size + 1);
             forall k :: 0 <= k < |kept| - 1 ==> kept[k] != kept[|kept| - 1]
    ensures var kept := Take(Split(cmd.writeFormats[RowIndex(cmd, param).value], "\\n"), size + 1);
            |kept| > 0 &&
            WriteFormattedParam(cmd, param, size).value == MapChar(JoinLinesAsWritten(kept), '\'', '"') + "\n"
  {
    var i := RowIndex(cmd, param).value;
    var kept := Take(Split(cmd.writeFormats[i], "\\n"), size + 1);
    assert ParseWriteStyle(cmd.writeTypes[i]) == WriteSized;
    assert |Split(cmd.writeFormats[i], "\\n")| >= 1;
    JoinAsWrittenAgrees(kept, Last(kept));
    ReplaceCharIsMap(JoinLines(kept), '\'', '"');
  }

  /** A kept piece equal to the last one loses its newline: the two pieces
      `X` and `X` are written as `XX` instead of two lines. */
  lemma SizedJoinDropsNewline()
    ensures JoinLinesAsWritten(["X", "X"]) == "XX"
    ensures JoinLines(["X", "X"]) == "X\nX"
  {
  }
}
