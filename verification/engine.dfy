/** The parameter transcription engine: for each parameter of the command
    table it reads the device in the parameter's read style and splices the
    answers into its output template in the parameter's write style.

    The controller is an oracle from command string to answer. The program's
    device wrapper only sends queries (a command ending in `?` or starting
    with `MG_`); any other command gives Python's `None`, which the write
    styles then fail on.
 */
module Osmos {
  import opened Results
  import opened Strings
  import opened OsmosFiles

  /** The controller: the answer it gives to each command. */
  type Device = string -> string

  const Axes: seq<string> := ["A", "B", "C", "D", "E", "F", "G", "H"]
  const VectorAxes: seq<string> := ["S", "T"]
  const VectorSpeedAxes: seq<string> := ["N", "M"]

  /** The commands the device wrapper agrees to send. */
  predicate IsQuery(cmd: string) {
    (|cmd| > 0 && cmd[|cmd| - 1] == '?') || (|cmd| >= 3 && cmd[..3] == "MG_")
  }

  /** One device query: the answer to a query, None for any other command. */
  function Ask(dev: Device, cmd: string): (a: Option<string>)
    ensures a.Some? <==> IsQuery(cmd)
    ensures a.Some? ==> a.value == dev(cmd)
  {
    if IsQuery(cmd) then Some(dev(cmd)) else None
  }

  /** The commands sent, in order, and the answer to each. */
  datatype ReadResult = ReadResult(commands: seq<string>, answers: seq<Option<string>>)

  /** One query per axis, in the order of `axes`. Whether the query can be
      formatted does not depend on the axis. */
  function ReadAxes(cmd: CommandFile, dev: Device, param: string, axes: seq<string>): (r: Result<ReadResult>)
    ensures r.Ok? ==> |r.value.commands| == |axes| && |r.value.answers| == |axes|
    ensures r.Ok? ==> forall i :: 0 <= i < |axes| ==>
              && GetFormattedCmd(cmd, param, axes[i]) == Ok(r.value.commands[i])
              && r.value.answers[i] == Ask(dev, r.value.commands[i])
    ensures |axes| > 0 ==> (r.Ok? <==> GetFormattedCmd(cmd, param, DefaultAxis).Ok?)
    decreases |axes|
  {
    if |axes| == 0 then
      Ok(ReadResult([], []))
    else
      var c :- GetFormattedCmd(cmd, param, axes[0]);
      var rest :- ReadAxes(cmd, dev, param, axes[1..]);
      Ok(ReadResult([c] + rest.commands, [Ask(dev, c)] + rest.answers))
  }

  /** Standard read: eight queries, axes A to H in that order. */
  function StdRead(cmd: CommandFile, dev: Device, param: string): (r: Result<ReadResult>)
    ensures r.Ok? <==> GetFormattedCmd(cmd, param, DefaultAxis).Ok?
    ensures r.Ok? ==> |r.value.commands| == 8 && |r.value.answers| == 8
    ensures r.Ok? ==> forall i :: 0 <= i < 8 ==>
              && GetFormattedCmd(cmd, param, Axes[i]) == Ok(r.value.commands[i])
              && r.value.answers[i] == Ask(dev, r.value.commands[i])
  {
    ReadAxes(cmd, dev, param, Axes)
  }

  /** Unique and Message read (the two are the same code): one query, the
      template with no axis. */
  function SingleRead(cmd: CommandFile, dev: Device, param: string): (r: Result<ReadResult>)
    ensures r.Ok? <==> GetFormattedCmd(cmd, param, DefaultAxis).Ok?
    ensures r.Ok? ==> |r.value.commands| == 1 && |r.value.answers| == 1
    ensures r.Ok? ==> GetFormattedCmd(cmd, param, DefaultAxis) == Ok(r.value.commands[0])
                      && r.value.answers[0] == Ask(dev, r.value.commands[0])
  {
    var c :- GetFormattedCmd(cmd, param, DefaultAxis);
    Ok(ReadResult([c], [Ask(dev, c)]))
  }

  /** The vector axes: N, M for a name ending in the speed marker `I`,
      otherwise S, T. */
  function VectorAxesFor(param: string): (axes: seq<string>)
    requires |param| > 0
    ensures |axes| == 2
    ensures axes == VectorSpeedAxes <==> param[|param| - 1] == 'I'
    ensures param[|param| - 1] != 'I' ==> axes == VectorAxes
  {
    if param[|param| - 1] == 'I' then VectorSpeedAxes else VectorAxes
  }

  /** Vector read: two queries over the vector axes; an empty name has no
      last character (IndexError). */
  function VectorRead(cmd: CommandFile, dev: Device, param: string): (r: Result<ReadResult>)
    ensures |param| == 0 ==> r == Err(IndexError)
    ensures |param| > 0 ==> (r.Ok? <==> GetFormattedCmd(cmd, param, DefaultAxis).Ok?)
    ensures r.Ok? ==> |r.value.commands| == 2 && |r.value.answers| == 2
    ensures r.Ok? ==> forall i :: 0 <= i < 2 ==>
              && GetFormattedCmd(cmd, param, VectorAxesFor(param)[i]) == Ok(r.value.commands[i])
              && r.value.answers[i] == Ask(dev, r.value.commands[i])
  {
    if |param| == 0 then Err(IndexError) else ReadAxes(cmd, dev, param, VectorAxesFor(param))
  }

  /** The device gave answer `i`. */
  predicate Answered(answers: seq<Option<string>>, i: nat) {
    i < |answers| && answers[i].Some?
  }

  /** Answer `i` is "0". */
  predicate IsZero(answers: seq<Option<string>>, i: nat) {
    i < |answers| && answers[i] == Some("0")
  }

  /** Answer `i` as a string: IndexError past the end, and a None answer
      fails where the write uses it. */
  function Answer(answers: seq<Option<string>>, i: nat): (r: Result<string>)
    ensures r.Ok? <==> Answered(answers, i)
    ensures r.Ok? ==> answers[i] == Some(r.value)
  {
    if i >= |answers| then Err(IndexError)
    else if answers[i].None? then Err(NoneAnswer)
    else Ok(answers[i].value)
  }

  /** The per-axis placeholder `<key><axis>=v` and its filled form. */
  function Placeholder(key: string, axis: string): string {
    key + axis + "=v"
  }

  function Filled(key: string, axis: string, value: string): string {
    key + axis + "=" + value
  }

  /** Axis `j` of `axes` takes answer `j`: each placeholder of the axis is
      replaced by the filled form, axis after axis. */
  function SubstituteAxes(output: string, key: string, axes: seq<string>,
                          answers: seq<Option<string>>, i: nat): (r: Result<string>)
    requires i <= |axes|
    ensures r.Ok? <==> forall j :: i <= j < |axes| ==> Answered(answers, j)
    ensures r.Ok? && (forall j :: i <= j < |axes| ==> !Contains(output, Placeholder(key, axes[j]))) ==>
              r.value == output
    decreases |axes| - i
  {
    if i == |axes| then
      Ok(output)
    else if !Answered(answers, i) then
      Answer(answers, i)
    else
      var a := answers[i].value;
      SubstituteAxes(ReplaceAll(output, Placeholder(key, axes[i]), Filled(key, axes[i], a)),
                     key, axes, answers, i + 1)
  }

  /** No placeholder of the axes `lo..hi` occurs in `s`. */
  predicate NoPlaceholders(s: string, key: string, axes: seq<string>, lo: nat, hi: nat)
    requires lo <= hi <= |axes|
  {
    forall k :: lo <= k < hi ==> !Contains(s, Placeholder(key, axes[k]))
  }

  /** Axes whose placeholder does not occur change nothing: the
      substitution carries on from the first axis after them. */
  lemma {:induction false} SubstituteAxesSkips(output: string, key: string, axes: seq<string>,
                                               answers: seq<Option<string>>, i: nat, j: nat)
    requires i <= j <= |axes|
    requires forall k :: i <= k < j ==> Answered(answers, k)
    requires NoPlaceholders(output, key, axes, i, j)
    ensures SubstituteAxes(output, key, axes, answers, i) == SubstituteAxes(output, key, axes, answers, j)
    decreases j - i
  {
    if i < j {
      assert Answered(answers, i);
      assert !Contains(output, Placeholder(key, axes[i]));
      SubstituteAxesSkips(output, key, axes, answers, i + 1, j);
    }
  }

  /** The placeholder of axis `j` at the end of `pre + placeholder`, with no
      earlier occurrence, is filled with answer `j` and nothing else changes,
      when no other axis's placeholder occurs before or after the fill. */
  lemma SubstituteAxesOne(pre: string, post: string, key: string, axes: seq<string>,
                          answers: seq<Option<string>>, j: nat, a: string)
    requires j < |axes| && j < |answers| && answers[j] == Some(a)
    requires forall k :: 0 <= k < |axes| ==> Answered(answers, k)
    requires var p := Placeholder(key, axes[j]);
             && !Contains(pre + p[..|p| - 1], p) && !Contains(post, p)
             && NoPlaceholders(pre + p + post, key, axes, 0, j)
             && NoPlaceholders(pre + Filled(key, axes[j], a) + post, key, axes, j + 1, |axes|)
    ensures SubstituteAxes(pre + Placeholder(key, axes[j]) + post, key, axes, answers, 0)
              == Ok(pre + Filled(key, axes[j], a) + post)
  {
    var p := Placeholder(key, axes[j]);
    var f := Filled(key, axes[j], a);
    SubstituteAxesSkips(pre + p + post, key, axes, answers, 0, j);
    ReplaceAllAt(pre, p, post, f);
    assert ReplaceAll(pre + p + post, p, f) == pre + f + post;
  }

  /** Standard write: the template, with `<param><axis>=v` filled with the
      answer of that axis, for the eight axes. */
  function StdWrite(cmd: CommandFile, param: string, answers: seq<Option<string>>): (r: Result<string>)
    ensures r.Ok? <==> && WriteFormattedParam(cmd, param, 0).Ok?
                       && forall j :: 0 <= j < |Axes| ==> Answered(answers, j)
    ensures r.Ok? && (forall j :: 0 <= j < |Axes| ==>
                        !Contains(WriteFormattedParam(cmd, param, 0).value, Placeholder(param, Axes[j]))) ==>
              r.value == WriteFormattedParam(cmd, param, 0).value
  {
    var template :- WriteFormattedParam(cmd, param, 0);
    SubstituteAxes(template, param, Axes, answers, 0)
  }

  /** A Standard template `pre + <param><axis j>=v + post` gives
      `pre + <param><axis j>=<answer j> + post` when all eight axes answered
      and no other axis's placeholder occurs. */
  lemma StdWriteOne(cmd: CommandFile, param: string, answers: seq<Option<string>>,
                    pre: string, post: string, j: nat, a: string)
    requires j < 8 && j < |answers| && answers[j] == Some(a)
    requires forall k :: 0 <= k < 8 ==> Answered(answers, k)
    requires WriteFormattedParam(cmd, param, 0) == Ok(pre + Placeholder(param, Axes[j]) + post)
    requires var p := Placeholder(param, Axes[j]);
             && !Contains(pre + p[..|p| - 1], p) && !Contains(post, p)
             && NoPlaceholders(pre + p + post, param, Axes, 0, j)
             && NoPlaceholders(pre + Filled(param, Axes[j], a) + post, param, Axes, j + 1, 8)
    ensures StdWrite(cmd, param, answers) == Ok(pre + Filled(param, Axes[j], a) + post)
  {
    SubstituteAxesOne(pre, post, param, Axes, answers, j, a);
  }

  /** Unique write: the single answer with each ", " collapsed to ",", put
      in place of every `v` of the template. */
  function UniqueWrite(cmd: CommandFile, param: string, answers: seq<Option<string>>): (r: Result<string>)
    ensures r.Ok? <==> WriteFormattedParam(cmd, param, 0).Ok? && |answers| > 0 && answers[0].Some?
    ensures r.Ok? ==> r.value == Join(Split(WriteFormattedParam(cmd, param, 0).value, "v"),
                                      ReplaceAll(answers[0].value, ", ", ","))
    ensures r.Ok? && 'v' !in answers[0].value ==> 'v' !in r.value
  {
    var template :- WriteFormattedParam(cmd, param, 0);
    var a :- Answer(answers, 0);
    var collapsed := ReplaceAll(a, ", ", ",");
    ReplaceAllIsSplitJoin(template, "v", collapsed);
    if 'v' !in a then
      ReplaceAllKeepsOut(a, ", ", ",", 'v');
      ReplaceCharRemoves(template, 'v', collapsed);
      Ok(ReplaceAll(template, "v", collapsed))
    else
      Ok(ReplaceAll(template, "v", collapsed))
  }

  /** The number of answers that are not "0" (a None answer counts). */
  function NonZeroCount(answers: seq<Option<string>>): (n: nat)
    ensures n == |answers| - multiset(answers)[Some("0")]
    ensures n <= |answers|
    decreases |answers|
  {
    if |answers| == 0 then 0
    else
      assert answers == [answers[0]] + answers[1..];
      (if answers[0] != Some("0") then 1 else 0) + NonZeroCount(answers[1..])
  }

  /** The Sized placeholder of output line `n`, and its filled form. */
  function SizedPlaceholder(param: string, n: nat): string {
    param + "\\" + NatToString(n) + "\\Cmd=\"" + param + "x=v"
  }

  function SizedFilled(param: string, n: nat, axis: string, value: string): string {
    param + "\\" + NatToString(n) + "\\Cmd=\"" + param + axis + "=" + value
  }

  /** Axes `i..H`: a "0" answer is skipped; every other answer fills the
      placeholder of the next output line `nb + 1` with its axis and value. */
  function SizedSubst(output: string, param: string, answers: seq<Option<string>>,
                      i: nat, nb: nat): (r: Result<string>)
    requires i <= 8
    ensures r.Ok? <==> forall j :: i <= j < 8 ==> Answered(answers, j)
    ensures (forall j :: i <= j < 8 ==> IsZero(answers, j)) ==> r == Ok(output)
    decreases 8 - i
  {
    if i == 8 then Ok(output)
    else if !Answered(answers, i) then
      assert !IsZero(answers, i);
      Answer(answers, i)
    else if answers[i] == Some("0") then SizedSubst(output, param, answers, i + 1, nb)
    else
      assert !IsZero(answers, i);
      var a := answers[i].value;
      SizedSubst(ReplaceAll(output, SizedPlaceholder(param, nb + 1), SizedFilled(param, nb + 1, Axes[i], a)),
                 param, answers, i + 1, nb + 1)
  }

  /** "0" answers fill nothing and use up no line number: the substitution
      carries on from the next axis with the same line count. */
  lemma {:induction false} SizedSkipsZeros(output: string, param: string, answers: seq<Option<string>>,
                                           i: nat, j: nat, nb: nat)
    requires i <= j <= 8
    requires forall k :: i <= k < j ==> IsZero(answers, k)
    ensures SizedSubst(output, param, answers, i, nb) == SizedSubst(output, param, answers, j, nb)
    decreases j - i
  {
    if i < j {
      assert IsZero(answers, i);
      SizedSkipsZeros(output, param, answers, i + 1, j, nb);
    }
  }

  /** When the answer of axis `j` is the only one that is not "0", output
      line 1 takes that axis and answer, and nothing else changes. */
  lemma SizedOneNonZero(output: string, param: string, answers: seq<Option<string>>, j: nat, a: string)
    requires j < 8 && |answers| == 8 && answers[j] == Some(a) && a != "0"
    requires forall k :: 0 <= k < 8 && k != j ==> IsZero(answers, k)
    ensures SizedSubst(output, param, answers, 0, 0)
              == Ok(ReplaceAll(output, SizedPlaceholder(param, 1), SizedFilled(param, 1, Axes[j], a)))
  {
    SizedSkipsZeros(output, param, answers, 0, j, 0);
    var filled := ReplaceAll(output, SizedPlaceholder(param, 1), SizedFilled(param, 1, Axes[j], a));
    assert forall k :: j + 1 <= k < 8 ==> IsZero(answers, k);
    assert SizedSubst(filled, param, answers, j + 1, 1) == Ok(filled);
  }

  /** The fill adds and removes no line break when neither the name nor
      the answers have one. */
  lemma {:induction false} SizedSubstKeepsLines(output: string, param: string, answers: seq<Option<string>>,
                                                i: nat, nb: nat)
    requires i <= 8 && '\n' !in param
    requires forall k :: i <= k < 8 && Answered(answers, k) ==> '\n' !in answers[k].value
    requires SizedSubst(output, param, answers, i, nb).Ok?
    ensures multiset(SizedSubst(output, param, answers, i, nb).value)['\n'] == multiset(output)['\n']
    decreases 8 - i
  {
    if i < 8 {
      assert Answered(answers, i);
      if answers[i] == Some("0") {
        SizedSubstKeepsLines(output, param, answers, i + 1, nb);
      } else {
        var a := answers[i].value;
        SizedFillLine(output, param, a, i, nb);
        SizedSubstKeepsLines(ReplaceAll(output, SizedPlaceholder(param, nb + 1), SizedFilled(param, nb + 1, Axes[i], a)),
                             param, answers, i + 1, nb + 1);
      }
    }
  }

  /** One non-"0" step of the fill keeps the line breaks. */
  lemma SizedFillLine(output: string, param: string, a: string, i: nat, nb: nat)
    requires i < 8 && '\n' !in param && '\n' !in a
    ensures multiset(ReplaceAll(output, SizedPlaceholder(param, nb + 1), SizedFilled(param, nb + 1, Axes[i], a)))['\n']
              == multiset(output)['\n']
  {
    var p := SizedPlaceholder(param, nb + 1);
    var f := SizedFilled(param, nb + 1, Axes[i], a);
    assert '\n' !in NatToString(nb + 1) by {
      assert !IsDigit('\n');
    }
    assert '\n' !in Axes[i];
    ReplaceAllKeepsCount(output, p, f, '\n');
  }

  /** Sized write: as many template lines as non-"0" answers, plus the size
      line, which is `size=<count>`; "BA" keeps the first two template lines
      untouched whatever the answers. */
  function SizedWrite(cmd: CommandFile, param: string, answers: seq<Option<string>>): (r: Result<string>)
    ensures param == "BA" ==> r == WriteFormattedParam(cmd, param, 1)
    ensures param != "BA" ==>
              (r.Ok? <==> && WriteFormattedParam(cmd, param, 1).Ok?
                          && forall j :: 0 <= j < 8 ==> Answered(answers, j))
  {
    var first :- WriteFormattedParam(cmd, param, 1);
    if param == "BA" then
      Ok(first)
    else
      var size := NonZeroCount(answers);
      var template := WriteFormattedParam(cmd, param, size).value;
      var sized := ReplaceAll(template, "size=v", "size=" + NatToString(size));
      SizedSubst(sized, param, answers, 0, 0)
  }

  /** A Sized template with no line break of its own, filled with answers
      that have none, keeps one output line per answer that is not "0" plus
      the size line, as far as the template's `\n`-separated pieces go. */
  lemma SizedWriteLines(cmd: CommandFile, param: string, answers: seq<Option<string>>)
    requires param != "BA" && '\n' !in param
    requires CdeFileReadWriteType(cmd, param).Ok? && CdeFileReadWriteType(cmd, param).value.1 == WriteSized
    requires RowIndex(cmd, param).Ok? && RowIndex(cmd, param).value < |cmd.writeFormats|
    requires '\n' !in cmd.writeFormats[RowIndex(cmd, param).value]
    requires forall k :: 0 <= k < 8 ==> Answered(answers, k) && '\n' !in answers[k].value
    ensures SizedWrite(cmd, param, answers).Ok?
    ensures var pieces := Split(cmd.writeFormats[RowIndex(cmd, param).value], "\\n");
            var n := NonZeroCount(answers);
            multiset(SizedWrite(cmd, param, answers).value)['\n'] == if n + 1 < |pieces| then n + 1 else |pieces|
  {
    var size := NonZeroCount(answers);
    SizedTemplateLines(cmd, param, size);
    var template := WriteFormattedParam(cmd, param, size).value;
    var sized := SizedCountLine(template, size);
    assert SizedWrite(cmd, param, answers) == SizedSubst(sized, param, answers, 0, 0);
    SizedSubstKeepsLines(sized, param, answers, 0, 0);
  }

  /** Putting the count in place of `size=v` keeps the line breaks. */
  lemma SizedCountLine(template: string, size: nat) returns (sized: string)
    ensures sized == ReplaceAll(template, "size=v", "size=" + NatToString(size))
    ensures multiset(sized)['\n'] == multiset(template)['\n']
  {
    var count := "size=" + NatToString(size);
    assert '\n' !in count by {
      assert !IsDigit('\n');
      assert count[5..] == NatToString(size);
    }
    ReplaceAllKeepsCount(template, "size=v", count, '\n');
    sized := ReplaceAll(template, "size=v", count);
  }

  lemma {:induction false} NonZeroCountAllZero(answers: seq<Option<string>>)
    requires forall j :: 0 <= j < |answers| ==> IsZero(answers, j)
    ensures NonZeroCount(answers) == 0
    decreases |answers|
  {
    if |answers| > 0 {
      assert IsZero(answers, 0);
      forall j | 0 <= j < |answers[1..]|
        ensures IsZero(answers[1..], j)
      {
        assert IsZero(answers, j + 1);
      }
      NonZeroCountAllZero(answers[1..]);
    }
  }

  /** With eight "0" answers a Sized write keeps only the size line, reads
      `size=0`, and fills no placeholder. */
  lemma SizedAllZero(cmd: CommandFile, param: string, answers: seq<Option<string>>)
    requires param != "BA" && WriteFormattedParam(cmd, param, 1).Ok?
    requires |answers| == 8 && forall j :: 0 <= j < 8 ==> IsZero(answers, j)
    ensures SizedWrite(cmd, param, answers)
              == Ok(ReplaceAll(WriteFormattedParam(cmd, param, 0).value, "size=v", "size=0"))
  {
    NonZeroCountAllZero(answers);
    assert NatToString(0) == "0";
    assert "size=" + NatToString(0) == "size=0";
    var sized := ReplaceAll(WriteFormattedParam(cmd, param, 0).value, "size=v", "size=0");
    assert SizedSubst(sized, param, answers, 0, 0) == Ok(sized);
  }

  /** The two shapes of a Special answer. */
  datatype SpecialShape = SixFields | FiveFields

  function Width(shape: SpecialShape): nat {
    match shape
    case SixFields => 6
    case FiveFields => 5
  }

  /** The template placeholder of a shape. */
  function SpecialPattern(shape: SpecialShape): string {
    match shape
    case SixFields => "a,b,c,d<e>f"
    case FiveFields => "a,b,c,d<e"
  }

  /** Fields `a, b, c, d, e[, f]` rendered as `a,b,c,d<e[>f]`. */
  function SpecialFormat(fields: seq<string>, shape: SpecialShape): string
    requires |fields| >= Width(shape)
  {
    var head := fields[0] + "," + fields[1] + "," + fields[2] + "," + fields[3] + "<" + fields[4];
    match shape
    case SixFields => head + ">" + fields[5]
    case FiveFields => head
  }

  /** The Special placeholder `<param><axis>=<pattern>` and its filled form. */
  function SpecialPlaceholder(param: string, axis: string, shape: SpecialShape): string {
    param + axis + "=" + SpecialPattern(shape)
  }

  function SpecialFilled(param: string, axis: string, fields: seq<string>, shape: SpecialShape): string
    requires |fields| >= Width(shape)
  {
    param + axis + "=" + SpecialFormat(fields, shape)
  }

  /** Answer `i` exists and has at least the fields of the shape. */
  predicate WellShaped(answers: seq<Option<string>>, i: nat, shape: SpecialShape) {
    Answered(answers, i) && |Split(answers[i].value, ", ")| >= Width(shape)
  }

  /** Axes `i..H`: each answer is split on ", " and rendered into its axis's
      placeholder; an answer with too few fields is an IndexError. */
  function SpecialSubst(output: string, param: string, answers: seq<Option<string>>,
                        i: nat, shape: SpecialShape): (r: Result<string>)
    requires i <= 8
    ensures r.Ok? <==> forall j :: i <= j < 8 ==> WellShaped(answers, j, shape)
    decreases 8 - i
  {
    if i == 8 then Ok(output)
    else if !WellShaped(answers, i, shape) then
      if !Answered(answers, i) then Answer(answers, i) else Err(IndexError)
    else
      ShapedFrom(answers, i, shape);
      var fields := Split(answers[i].value, ", ");
      SpecialSubst(ReplaceAll(output, SpecialPlaceholder(param, Axes[i], shape),
                              SpecialFilled(param, Axes[i], fields, shape)),
                   param, answers, i + 1, shape)
  }

  /** With answer `i` well shaped, all of `i..H` are exactly when all of
      `i + 1..H` are. */
  lemma ShapedFrom(answers: seq<Option<string>>, i: nat, shape: SpecialShape)
    requires i < 8 && WellShaped(answers, i, shape)
    ensures (forall j :: i <= j < 8 ==> WellShaped(answers, j, shape))
              <==> (forall j :: i + 1 <= j < 8 ==> WellShaped(answers, j, shape))
  {
  }

  /** No Special placeholder of the axes `lo..hi` occurs in `s`. */
  predicate NoSpecialPlaceholders(s: string, param: string, shape: SpecialShape, lo: nat, hi: nat)
    requires lo <= hi <= 8
  {
    forall k :: lo <= k < hi ==> !Contains(s, SpecialPlaceholder(param, Axes[k], shape))
  }

  /** Axes whose placeholder does not occur change nothing. */
  lemma {:induction false} SpecialSubstSkips(output: string, param: string, answers: seq<Option<string>>,
                                             i: nat, j: nat, shape: SpecialShape)
    requires i <= j <= 8
    requires forall k :: i <= k < j ==> WellShaped(answers, k, shape)
    requires NoSpecialPlaceholders(output, param, shape, i, j)
    ensures SpecialSubst(output, param, answers, i, shape) == SpecialSubst(output, param, answers, j, shape)
    decreases j - i
  {
    if i < j {
      assert WellShaped(answers, i, shape);
      var fields := Split(answers[i].value, ", ");
      var p := SpecialPlaceholder(param, Axes[i], shape);
      assert !Contains(output, p);
      assert ReplaceAll(output, p, SpecialFilled(param, Axes[i], fields, shape)) == output;
      SpecialSubstSkips(output, param, answers, i + 1, j, shape);
    }
  }

  /** The placeholder of axis `j` at the end of `pre + placeholder`, with no
      earlier occurrence, takes the rendered fields of answer `j`, and
      nothing else changes when no other axis's placeholder occurs. */
  lemma SpecialSubstOne(pre: string, post: string, param: string, answers: seq<Option<string>>,
                        j: nat, shape: SpecialShape)
    requires j < 8
    requires forall k :: 0 <= k < 8 ==> WellShaped(answers, k, shape)
    requires WellShaped(answers, j, shape)
    requires var p := SpecialPlaceholder(param, Axes[j], shape);
             var f := SpecialFilled(param, Axes[j], Split(answers[j].value, ", "), shape);
             && !Contains(pre + p[..|p| - 1], p) && !Contains(post, p)
             && NoSpecialPlaceholders(pre + p + post, param, shape, 0, j)
             && NoSpecialPlaceholders(pre + f + post, param, shape, j + 1, 8)
    ensures SpecialSubst(pre + SpecialPlaceholder(param, Axes[j], shape) + post, param, answers, 0, shape)
              == Ok(pre + SpecialFilled(param, Axes[j], Split(answers[j].value, ", "), shape) + post)
  {
    var p := SpecialPlaceholder(param, Axes[j], shape);
    var f := SpecialFilled(param, Axes[j], Split(answers[j].value, ", "), shape);
    SpecialSubstSkips(pre + p + post, param, answers, 0, j, shape);
    SpecialSubstFrom(pre, post, param, answers, j, shape);
  }

  /** From axis `j` on, the substitution fills axis `j`'s placeholder and
      finds no other. */
  lemma SpecialSubstFrom(pre: string, post: string, param: string, answers: seq<Option<string>>,
                         j: nat, shape: SpecialShape)
    requires j < 8
    requires forall k :: j < k < 8 ==> WellShaped(answers, k, shape)
    requires WellShaped(answers, j, shape)
    requires var p := SpecialPlaceholder(param, Axes[j], shape);
             var f := SpecialFilled(param, Axes[j], Split(answers[j].value, ", "), shape);
             && !Contains(pre + p[..|p| - 1], p) && !Contains(post, p)
             && NoSpecialPlaceholders(pre + f + post, param, shape, j + 1, 8)
    ensures SpecialSubst(pre + SpecialPlaceholder(param, Axes[j], shape) + post, param, answers, j, shape)
              == Ok(pre + SpecialFilled(param, Axes[j], Split(answers[j].value, ", "), shape) + post)
  {
    var t := pre + SpecialFilled(param, Axes[j], Split(answers[j].value, ", "), shape) + post;
    SpecialSubstAt(pre, post, param, answers, j, shape);
    SpecialSubstSkips(t, param, answers, j + 1, 8, shape);
    assert SpecialSubst(t, param, answers, 8, shape) == Ok(t);
  }

  /** The step of the substitution at a well-shaped axis whose placeholder
      first occurs right after `pre`. */
  lemma SpecialSubstAt(pre: string, post: string, param: string, answers: seq<Option<string>>,
                       j: nat, shape: SpecialShape)
    requires j < 8 && WellShaped(answers, j, shape)
    requires var p := SpecialPlaceholder(param, Axes[j], shape);
             !Contains(pre + p[..|p| - 1], p) && !Contains(post, p)
    ensures var p := SpecialPlaceholder(param, Axes[j], shape);
            var f := SpecialFilled(param, Axes[j], Split(answers[j].value, ", "), shape);
            SpecialSubst(pre + p + post, param, answers, j, shape)
              == SpecialSubst(pre + f + post, param, answers, j + 1, shape)
  {
    var p := SpecialPlaceholder(param, Axes[j], shape);
    var f := SpecialFilled(param, Axes[j], Split(answers[j].value, ", "), shape);
    ReplaceAllAt(pre, p, post, f);
    assert ReplaceAll(pre + p + post, p, f) == pre + f + post;
  }

  /** The answers a Special write can use: the first exists, and when its
      comma count picks a shape, every axis's answer has that shape's fields. */
  predicate SpecialReady(answers: seq<Option<string>>) {
    && Answered(answers, 0)
    && (multiset(answers[0].value)[','] == 5 ==> forall j :: 0 <= j < 8 ==> WellShaped(answers, j, SixFields))
    && (multiset(answers[0].value)[','] == 4 ==> forall j :: 0 <= j < 8 ==> WellShaped(answers, j, FiveFields))
  }

  /** Special write: the comma count of the FIRST answer picks the shape
      (5 commas: six fields, 4 commas: five fields); any other count leaves
      the template as it is. */
  function SpecialWrite(cmd: CommandFile, param: string, answers: seq<Option<string>>): (r: Result<string>)
    ensures r.Ok? <==> WriteFormattedParam(cmd, param, 0).Ok? && SpecialReady(answers)
    ensures r.Ok? ==> WriteFormattedParam(cmd, param, 0).Ok? && |answers| > 0 && answers[0].Some?
    ensures && WriteFormattedParam(cmd, param, 0).Ok? && |answers| > 0 && answers[0].Some?
            && multiset(answers[0].value)[','] !in {4, 5} ==>
              r == WriteFormattedParam(cmd, param, 0)
  {
    var template :- WriteFormattedParam(cmd, param, 0);
    var first :- Answer(answers, 0);
    var commas := multiset(first)[','];
    if commas == 5 then SpecialSubst(template, param, answers, 0, SixFields)
    else if commas == 4 then SpecialSubst(template, param, answers, 0, FiveFields)
    else Ok(template)
  }

  lemma {:induction false} JoinCharCount(parts: seq<string>, sep: string, c: char)
    requires |parts| >= 1
    requires forall k :: 0 <= k < |parts| ==> c !in parts[k]
    ensures multiset(Join(parts, sep))[c] == (|parts| - 1) * multiset(sep)[c]
    decreases |parts|
  {
    if |parts| > 1 {
      JoinCharCount(parts[1..], sep, c);
      var n := multiset(sep)[c];
      assert (|parts| - 1) * n == n + (|parts| - 2) * n;
    }
  }

  /** A device answer `f1, f2, ..., fk` of comma-free fields has k - 1
      commas, so its comma count picks the shape of k fields, and splitting
      it gives exactly those fields back to be rendered. */
  lemma SpecialAnswerRoundTrip(fields: seq<string>, shape: SpecialShape)
    requires |fields| == Width(shape)
    requires forall k :: 0 <= k < |fields| ==> ',' !in fields[k]
    ensures multiset(Join(fields, ", "))[','] == Width(shape) - 1
    ensures Split(Join(fields, ", "), ", ") == fields
  {
    var sep := ", ";
    assert sep[0] == ',';
    assert multiset(sep)[','] == 1 by {
      assert sep == [','] + [' '];
    }
    JoinCharCount(fields, sep, ',');
    JoinSplitRoundTrip(fields, sep);
  }

  /** A Special write whose answers are `f1, f2, ..., fk` of k = 5 or 6
      comma-free fields renders the fields of answer `j` in place of the
      placeholder of axis `j`: the first answer picks the shape of k fields,
      and splitting answer `j` gives its fields back. */
  lemma SpecialWriteOne(cmd: CommandFile, param: string, answers: seq<Option<string>>,
                        pre: string, post: string, j: nat, shape: SpecialShape,
                        first: seq<string>, fields: seq<string>)
    requires j < 8 && |answers| == 8
    requires |first| == Width(shape) && forall k :: 0 <= k < |first| ==> ',' !in first[k]
    requires |fields| == Width(shape) && forall k :: 0 <= k < |fields| ==> ',' !in fields[k]
    requires answers[0] == Some(Join(first, ", ")) && answers[j] == Some(Join(fields, ", "))
    requires forall k :: 0 <= k < 8 ==> WellShaped(answers, k, shape)
    requires var p := SpecialPlaceholder(param, Axes[j], shape);
             && WriteFormattedParam(cmd, param, 0) == Ok(pre + p + post)
             && !Contains(pre + p[..|p| - 1], p) && !Contains(post, p)
             && NoSpecialPlaceholders(pre + p + post, param, shape, 0, j)
             && NoSpecialPlaceholders(pre + SpecialFilled(param, Axes[j], fields, shape) + post, param, shape, j + 1, 8)
    ensures SpecialWrite(cmd, param, answers)
              == Ok(pre + SpecialFilled(param, Axes[j], fields, shape) + post)
  {
    var template := pre + SpecialPlaceholder(param, Axes[j], shape) + post;
    SpecialAnswerRoundTrip(first, shape);
    SpecialWritePicks(cmd, param, answers, shape);
    assert SpecialWrite(cmd, param, answers) == SpecialSubst(template, param, answers, 0, shape);
    SpecialAnswerRoundTrip(fields, shape);
    assert Split(answers[j].value, ", ") == fields;
    SpecialSubstOne(pre, post, param, answers, j, shape);
  }

  /** The first answer's comma count picks the shape of that many fields
      plus one. */
  lemma SpecialWritePicks(cmd: CommandFile, param: string, answers: seq<Option<string>>, shape: SpecialShape)
    requires WriteFormattedParam(cmd, param, 0).Ok? && |answers| > 0 && answers[0].Some?
    requires multiset(answers[0].value)[','] == Width(shape) - 1
    ensures SpecialWrite(cmd, param, answers)
              == SpecialSubst(WriteFormattedParam(cmd, param, 0).value, param, answers, 0, shape)
  {
  }

  /** The key of a vector placeholder: a speed name (ending in `I`) is cut
      to its first two characters. */
  function VectorKey(param: string): (key: string)
    requires |param| > 0
    ensures param[|param| - 1] != 'I' ==> key == param
    ensures param[|param| - 1] == 'I' ==> key <= param && |key| == if |param| < 2 then |param| else 2
  {
    if param[|param| - 1] == 'I' then (if |param| < 2 then param else param[..2]) else param
  }

  /** Vector write: Standard over the two vector axes, keyed by VectorKey. */
  function VectorWrite(cmd: CommandFile, param: string, answers: seq<Option<string>>): (r: Result<string>)
    ensures |param| == 0 ==> r == Err(IndexError)
    ensures |param| > 0 ==>
              (r.Ok? <==> && WriteFormattedParam(cmd, param, 0).Ok?
                          && |answers| >= 2 && answers[0].Some? && answers[1].Some?)
    ensures r.Ok? && (forall j :: 0 <= j < 2 ==>
                        !Contains(WriteFormattedParam(cmd, param, 0).value,
                                  Placeholder(VectorKey(param), VectorAxesFor(param)[j]))) ==>
              r.value == WriteFormattedParam(cmd, param, 0).value
  {
    if |param| == 0 then Err(IndexError)
    else
      var template :- WriteFormattedParam(cmd, param, 0);
      SubstituteAxes(template, VectorKey(param), VectorAxesFor(param), answers, 0)
  }

  /** A Vector template `pre + <key><axis j>=v + post`, with the key and
      axes of the name, gives `pre + <key><axis j>=<answer j> + post` when
      both axes answered and the other axis's placeholder does not occur. */
  lemma VectorWriteOne(cmd: CommandFile, param: string, answers: seq<Option<string>>,
                       pre: string, post: string, j: nat, a: string)
    requires |param| > 0
    requires j < 2 && j < |answers| && answers[j] == Some(a)
    requires forall k :: 0 <= k < 2 ==> Answered(answers, k)
    requires var key, axes := VectorKey(param), VectorAxesFor(param);
             var p := Placeholder(key, axes[j]);
             && WriteFormattedParam(cmd, param, 0) == Ok(pre + p + post)
             && !Contains(pre + p[..|p| - 1], p) && !Contains(post, p)
             && NoPlaceholders(pre + p + post, key, axes, 0, j)
             && NoPlaceholders(pre + Filled(key, axes[j], a) + post, key, axes, j + 1, 2)
    ensures VectorWrite(cmd, param, answers)
              == Ok(pre + Filled(VectorKey(param), VectorAxesFor(param)[j], a) + post)
  {
    SubstituteAxesOne(pre, post, VectorKey(param), VectorAxesFor(param), answers, j, a);
  }

  /** The axes a known read style queries: A..H, the vector axes of the
      name, or the one default axis. */
  function ReadAxesOf(style: ReadStyle, param: string): seq<string>
    requires !style.ReadUnknown? && (style.ReadVector? ==> |param| > 0)
  {
    match style
    case ReadStandard => Axes
    case ReadVector => VectorAxesFor(param)
    case _ => [DefaultAxis]
  }

  /** The device's answer to the formatted query of each axis, in order. */
  function AnswersOver(cmd: CommandFile, dev: Device, param: string, axes: seq<string>): (answers: seq<Option<string>>)
    requires GetFormattedCmd(cmd, param, DefaultAxis).Ok?
    ensures |answers| == |axes|
  {
    seq(|axes|, i requires 0 <= i < |axes| => Ask(dev, GetFormattedCmd(cmd, param, axes[i]).value))
  }

  /** The read in a known read style: one query per axis of the style, in
      order; it fails exactly when the query cannot be formatted, or, for a
      Vector read, when the name is empty. */
  function Read(cmd: CommandFile, dev: Device, param: string, style: ReadStyle): (r: Result<ReadResult>)
    requires !style.ReadUnknown?
    ensures r.Ok? ==> |r.value.answers| == match style
                                         case ReadStandard => 8
                                         case ReadVector => 2
                                         case _ => 1
    ensures style.ReadVector? && |param| == 0 ==> r == Err(IndexError)
    ensures r.Ok? <==> GetFormattedCmd(cmd, param, DefaultAxis).Ok? && (style.ReadVector? ==> |param| > 0)
    ensures r.Ok? ==> var axes := ReadAxesOf(style, param);
              && |r.value.commands| == |axes|
              && (forall i :: 0 <= i < |axes| ==> GetFormattedCmd(cmd, param, axes[i]) == Ok(r.value.commands[i]))
              && r.value.answers == AnswersOver(cmd, dev, param, axes)
  {
    match style
    case ReadStandard => StdRead(cmd, dev, param)
    case ReadUnique => SingleRead(cmd, dev, param)
    case ReadMessage => SingleRead(cmd, dev, param)
    case ReadVector => VectorRead(cmd, dev, param)
  }

  /** When a write in each style succeeds: it needs its output template and
      every answer it uses ("BA" Sized uses none; Unique uses the first,
      Vector the first two, the others all eight). */
  predicate WriteSucceeds(cmd: CommandFile, param: string, style: WriteStyle, answers: seq<Option<string>>) {
    match style
    case WriteStandard =>
      WriteFormattedParam(cmd, param, 0).Ok? && forall j :: 0 <= j < 8 ==> Answered(answers, j)
    case WriteSized =>
      WriteFormattedParam(cmd, param, 1).Ok? && (param != "BA" ==> forall j :: 0 <= j < 8 ==> Answered(answers, j))
    case WriteSpecial =>
      WriteFormattedParam(cmd, param, 0).Ok? && SpecialReady(answers)
    case WriteUnique =>
      WriteFormattedParam(cmd, param, 0).Ok? && Answered(answers, 0)
    case WriteVector =>
      |param| > 0 && WriteFormattedParam(cmd, param, 0).Ok? && Answered(answers, 0) && Answered(answers, 1)
    case WriteUnknown(_) => false
  }

  /** The write in a given write style; an unknown style leaves the result
      unbound. */
  function Write(cmd: CommandFile, param: string, style: WriteStyle, answers: seq<Option<string>>): (r: Result<string>)
    ensures style.WriteUnknown? ==> r == Err(UnboundResult(style.tag))
    ensures r.Ok? <==> WriteSucceeds(cmd, param, style, answers)
  {
    match style
    case WriteStandard => StdWrite(cmd, param, answers)
    case WriteSized => SizedWrite(cmd, param, answers)
    case WriteSpecial => SpecialWrite(cmd, param, answers)
    case WriteUnique => UniqueWrite(cmd, param, answers)
    case WriteVector => VectorWrite(cmd, param, answers)
    case WriteUnknown(tag) => Err(UnboundResult(tag))
  }

  /** The write after an unknown read style, whose answer list is None: only
      the "BA" Sized write, which never looks at it, succeeds. */
  function WriteWithoutAnswers(cmd: CommandFile, param: string, style: WriteStyle): (r: Result<string>)
    ensures r.Ok? ==> style == WriteSized && param == "BA"
    ensures style == WriteSized && param == "BA" ==> r == WriteFormattedParam(cmd, param, 1)
  {
    match style
    case WriteUnknown(tag) => Err(UnboundResult(tag))
    case WriteSized =>
      var first :- WriteFormattedParam(cmd, param, 1);
      if param == "BA" then Ok(first) else Err(NoneAnswer)
    case WriteVector =>
      if |param| == 0 then Err(IndexError)
      else var _ :- WriteFormattedParam(cmd, param, 0); Err(NoneAnswer)
    case _ =>
      var _ :- WriteFormattedParam(cmd, param, 0);
      Err(NoneAnswer)
  }

  /** One parameter's block of the backup: its read style decides the
      queries, its write style how the answers are spliced in. */
  function ParamTrt(cmd: CommandFile, dev: Device, param: string): (r: Result<string>)
    ensures param !in cmd.params ==> r == Err(NotInList(param))
    ensures r.Ok? ==> CdeFileReadWriteType(cmd, param).Ok?
                      && !CdeFileReadWriteType(cmd, param).value.1.WriteUnknown?
  {
    var (readStyle, writeStyle) :- CdeFileReadWriteType(cmd, param);
    if readStyle.ReadUnknown? then
      WriteWithoutAnswers(cmd, param, writeStyle)
    else
      var read :- Read(cmd, dev, param, readStyle);
      Write(cmd, param, writeStyle, read.answers)
  }

  /** The block of a parameter with a row: after an unknown read style, the
      write without answers; after a known one, the write of the row's
      style over the device's answers to the style's queries. A query that
      cannot be formatted, or a Vector read of an empty name, is an
      IndexError. */
  lemma ParamTrtDispatch(cmd: CommandFile, dev: Device, param: string)
    requires CdeFileReadWriteType(cmd, param).Ok?
    ensures var (rs, ws) := CdeFileReadWriteType(cmd, param).value;
            && (rs.ReadUnknown? ==> ParamTrt(cmd, dev, param) == WriteWithoutAnswers(cmd, param, ws))
            && (!rs.ReadUnknown? && (rs.ReadVector? ==> |param| > 0) && GetFormattedCmd(cmd, param, DefaultAxis).Ok? ==>
                  ParamTrt(cmd, dev, param) == Write(cmd, param, ws, AnswersOver(cmd, dev, param, ReadAxesOf(rs, param))))
            && (!rs.ReadUnknown? && !((rs.ReadVector? ==> |param| > 0) && GetFormattedCmd(cmd, param, DefaultAxis).Ok?) ==>
                  ParamTrt(cmd, dev, param) == Err(IndexError))
  {
  }

  /** A Standard row read and written end to end: with every axis query a
      query the wrapper sends, the placeholder of axis `j` in the template
      is filled with the device's answer to the query of axis `j`. */
  lemma ParamTrtStdOne(cmd: CommandFile, dev: Device, param: string, pre: string, post: string, j: nat)
    requires CdeFileReadWriteType(cmd, param) == Ok((ReadStandard, WriteStandard))
    requires GetFormattedCmd(cmd, param, DefaultAxis).Ok?
    requires forall k :: 0 <= k < 8 ==> IsQuery(GetFormattedCmd(cmd, param, Axes[k]).value)
    requires j < 8
    requires var a := dev(GetFormattedCmd(cmd, param, Axes[j]).value);
             var p := Placeholder(param, Axes[j]);
             && WriteFormattedParam(cmd, param, 0) == Ok(pre + p + post)
             && !Contains(pre + p[..|p| - 1], p) && !Contains(post, p)
             && NoPlaceholders(pre + p + post, param, Axes, 0, j)
             && NoPlaceholders(pre + Filled(param, Axes[j], a) + post, param, Axes, j + 1, 8)
    ensures ParamTrt(cmd, dev, param)
              == Ok(pre + Filled(param, Axes[j], dev(GetFormattedCmd(cmd, param, Axes[j]).value)) + post)
  {
    ParamTrtDispatch(cmd, dev, param);
    var answers := AnswersOver(cmd, dev, param, Axes);
    assert forall k :: 0 <= k < 8 ==> Answered(answers, k) by {
      forall k | 0 <= k < 8
        ensures Answered(answers, k)
      {
        assert IsQuery(GetFormattedCmd(cmd, param, Axes[k]).value);
      }
    }
    var a := dev(GetFormattedCmd(cmd, param, Axes[j]).value);
    assert answers[j] == Some(a);
    StdWriteOne(cmd, param, answers, pre, post, j, a);
  }

  /** The "BA" Sized block does not depend on the device. */
  lemma ParamTrtBAIgnoresDevice(cmd: CommandFile, dev1: Device, dev2: Device)
    requires CdeFileReadWriteType(cmd, "BA").Ok? && CdeFileReadWriteType(cmd, "BA").value.1 == WriteSized
    ensures ParamTrt(cmd, dev1, "BA") == ParamTrt(cmd, dev2, "BA")
    ensures ParamTrt(cmd, dev1, "BA").Ok? ==> ParamTrt(cmd, dev1, "BA") == WriteFormattedParam(cmd, "BA", 1)
  {
    var rs := CdeFileReadWriteType(cmd, "BA").value.0;
    if !rs.ReadUnknown? {
      match rs
      case ReadStandard =>
      case ReadUnique =>
      case ReadMessage =>
      case ReadVector =>
    }
  }

  /** Whether the device firmware is one of the parameter's firmwares. */
  function DoesFWExists(cmd: CommandFile, param: string, firmware: string): (r: Result<bool>)
    ensures r.Ok? <==> CdeFileGetFWAvail(cmd, param).Ok?
  {
    var firmwares :- CdeFileGetFWAvail(cmd, param);
    Ok(firmware in firmwares)
  }

  /** For a firmware cell listing comma-free names separated by ", ", the
      firmware is accepted exactly when it is one of those names. */
  lemma DoesFWExistsListed(cmd: CommandFile, param: string, firmware: string, names: seq<string>)
    requires CdeFileGetFWAvail(cmd, param).Ok? && |names| >= 1
    requires forall k :: 0 <= k < |names| ==> ',' !in names[k]
    requires cmd.firmwares[RowIndex(cmd, param).value] == Join(names, ", ")
    ensures DoesFWExists(cmd, param, firmware) == Ok(firmware in names)
  {
    JoinSplitRoundTrip(names, ", ");
  }

  const ConfigurationHeader: string := "[Configuration]\nEO=false\n"
  const MotorOff: string := "MO\\size=1\nMO\\1\\Cmd=MO\\r\n"

  /** The fixed opening: echo off, the device's variable and position
      formats, no leading zeros. */
  function Preamble(dev: Device): string {
    ConfigurationHeader
      + "VF=VF " + dev("VF?") + "\\r\n"
      + "PF=PF " + dev("PF?") + "\\r\n"
      + "LZ=LZ 1\\r\n"
  }

  /** Concatenation of successful results; the first failure wins. */
  function Concat(a: Result<string>, b: Result<string>): Result<string> {
    if a.Err? then a else if b.Err? then b else Ok(a.value + b.value)
  }

  /** The block one parameter contributes: its transcription when the
      firmware supports it, nothing otherwise. */
  function Block(cmd: CommandFile, dev: Device, firmware: string, param: string): Result<string> {
    var supported :- DoesFWExists(cmd, param, firmware);
    if supported then ParamTrt(cmd, dev, param) else Ok("")
  }

  function BlockOf(cmd: CommandFile, dev: Device, firmware: string): string -> Result<string> {
    param => Block(cmd, dev, firmware, param)
  }

  /** The blocks of `params`, in list order; the first block that fails
      stops the section with its error. */
  function Gather(block: string -> Result<string>, params: seq<string>): (r: Result<string>)
    ensures r.Ok? <==> forall k :: 0 <= k < |params| ==> block(params[k]).Ok?
    decreases |params|
  {
    if |params| == 0 then Ok("")
    else
      var first :- block(params[0]);
      var rest :- Gather(block, params[1..]);
      Ok(first + rest)
  }

  /** The body of a list is the body of its first part followed by that of
      its second part. */
  lemma {:induction false} GatherAppend(block: string -> Result<string>, a: seq<string>, b: seq<string>)
    ensures Gather(block, a + b) == Concat(Gather(block, a), Gather(block, b))
    decreases |a|
  {
    if |a| == 0 {
      assert a + b == b;
      var rb := Gather(block, b);
      if rb.Ok? {
        assert "" + rb.value == rb.value;
      }
    } else {
      assert (a + b)[0] == a[0];
      assert (a + b)[1..] == a[1..] + b;
      GatherAppend(block, a[1..], b);
      var first := block(a[0]);
      var ra := Gather(block, a[1..]);
      var rb := Gather(block, b);
      if first.Ok? && ra.Ok? && rb.Ok? {
        assert first.value + (ra.value + rb.value) == (first.value + ra.value) + rb.value;
      }
    }
  }

  /** Blocks that are all empty give an empty body. */
  lemma {:induction false} GatherEmpty(block: string -> Result<string>, params: seq<string>)
    requires forall k :: 0 <= k < |params| ==> block(params[k]) == Ok("")
    ensures Gather(block, params) == Ok("")
    decreases |params|
  {
    if |params| > 0 {
      GatherEmpty(block, params[1..]);
    }
  }

  /** The blocks of the parameters the firmware supports, in list order. */
  function Transcripts(cmd: CommandFile, dev: Device, firmware: string, params: seq<string>): Result<string> {
    Gather(BlockOf(cmd, dev, firmware), params)
  }

  /** A one-parameter list has that parameter's block as its body. */
  lemma GatherOne(block: string -> Result<string>, param: string)
    ensures Gather(block, [param]) == block(param)
  {
    assert [param][1..] == [];
    var t := block(param);
    if t.Ok? {
      assert t.value + "" == t.value;
    }
  }

  /** A parameter's block: its transcription when supported, nothing
      otherwise, and the firmware lookup's error when that fails. */
  lemma BlockCases(cmd: CommandFile, dev: Device, firmware: string, param: string)
    ensures DoesFWExists(cmd, param, firmware) == Ok(false) ==> Transcripts(cmd, dev, firmware, [param]) == Ok("")
    ensures DoesFWExists(cmd, param, firmware) == Ok(true) ==>
              Transcripts(cmd, dev, firmware, [param]) == ParamTrt(cmd, dev, param)
    ensures DoesFWExists(cmd, param, firmware).Err? ==>
              Transcripts(cmd, dev, firmware, [param]) == Err(DoesFWExists(cmd, param, firmware).error)
  {
    GatherOne(BlockOf(cmd, dev, firmware), param);
  }

  /** The blocks follow the parameter list: a list's body is the body of
      its first part followed by that of its second part. */
  lemma TranscriptsAppend(cmd: CommandFile, dev: Device, firmware: string, a: seq<string>, b: seq<string>)
    ensures Transcripts(cmd, dev, firmware, a + b)
              == Concat(Transcripts(cmd, dev, firmware, a), Transcripts(cmd, dev, firmware, b))
  {
    GatherAppend(BlockOf(cmd, dev, firmware), a, b);
  }

  /** A list whose parameters the firmware supports none of has an empty body. */
  lemma TranscriptsNoneSupported(cmd: CommandFile, dev: Device, firmware: string, params: seq<string>)
    requires forall k :: 0 <= k < |params| ==> DoesFWExists(cmd, params[k], firmware) == Ok(false)
    ensures Transcripts(cmd, dev, firmware, params) == Ok("")
  {
    GatherEmpty(BlockOf(cmd, dev, firmware), params);
  }

  /** The configuration section: the preamble, the supported parameters'
      blocks in list order, the motor-off postamble and a blank line. */
  function Configuration(cmd: CommandFile, dev: Device, firmware: string, params: seq<string>): (r: Result<string>)
    ensures r.Ok? <==> Transcripts(cmd, dev, firmware, params).Ok?
    ensures r.Ok? ==> StartsWith(r.value, ConfigurationHeader)
    ensures r.Ok? ==> r.value == Preamble(dev) + Transcripts(cmd, dev, firmware, params).value + MotorOff + "\n"
  {
    var body :- Transcripts(cmd, dev, firmware, params);
    var config := Preamble(dev) + body + MotorOff + "\n";
    assert config[..|ConfigurationHeader|] == ConfigurationHeader;
    Ok(config)
  }
}
