# OSMOS parameter transcription, modelled in Dafny

OSMOS backs up the configuration of Galil motion controllers ("control
boxes") into a `.bak` file. The heart of the program is a small interpreter
over a `;`-separated command table. The table has one row per controller
parameter and says:

- which firmwares support the parameter;
- how to read it from the device (Standard: one query per axis A..H;
  Unique or Message: one query; Vector: two vector axes);
- how to write the answers into the parameter's output template (Standard,
  Sized, Special, Unique, Vector).

The engine reads each supported parameter and splices the answers into its
template. It then wraps the blocks in the fixed `[Configuration]` preamble
and postamble. The other sections (`[Data]`, `[SystemInfo]`, `[Program]`)
are formatted from device reports.

The model is pure and functional:

- The device is an uninterpreted function `string -> string` (`Osmos.Device`).
  `Osmos.Ask` applies the guard of the device wrapper: only commands that
  end in `?` or start with `MG_` are sent, and any other command yields
  Python's `None`.
- Python exceptions are values of `Results.Error` inside a `Result`:
  - `KeyError` for a missing column;
  - `NotInList` for the ValueError of `list.index`;
  - `IndexError`;
  - `NoneAnswer` for using a `None` answer as a string;
  - `UnboundResult` for an unknown write style;
  - `NotAnInteger` for `int()`.
- Python's `str.replace`, `split`, `join` and `str(n)` are modelled in
  `Strings` with the same semantics. `int(s)` is modelled on plain digit
  strings only (see `Strings.ParseNat` under "Left out").

Files:

- `results.dfy` (`Results`): errors, `Result` and `Option`.
- `strings.dfy` (`Strings`): the string library with its inverse laws. For
  example, `replace` equals split-then-join, and join undoes split.
- `csv.dfy` (`CsvFile`): the column map of a `;`-separated file.
- `rules.dfy` (`OsmosFiles`): the controller-box and command tables and
  their lookups, query formatting and output templates.
- `engine.dfy` (`Osmos`): the read and write strategies, the dispatch of a
  parameter, firmware filtering and the configuration section.
- `sections.dfy` (`OsmosSections`): the data, system-information and
  program sections, and the list of networks.

Behaviour of the code worth knowing, which the model keeps:

- For "BA", the Sized write emits `writeFormattedParam(param, "1")`: the
  first two template pieces, with their placeholders left in place
  (`Osmos.SizedWrite`).
- A command the wrapper declines (not a query) reads as `None`, and the
  read goes on with the other axes. The write strategy raises when it uses
  that answer, and `__Configuration` does not catch it, so the whole
  section fails (`NoneAnswer`). A `None` the write does not use is
  harmless. Standard and Sized (other than "BA") use all eight answers.
  Unique uses answer 0, and Vector uses answers 0 and 1. Special uses
  answer 0 alone when its comma count is neither 4 nor 5, and otherwise
  all eight. The "BA" Sized write uses none (`Osmos.WriteSucceeds`).
  Failures of the device itself are not modelled (see "Left out").
- A read result too short for the write style raises `IndexError` when the
  write indexes past its end; there is no separate length check.

## Model

| member | source | states |
|---|---|---|
| Strings.ReplaceAll | Sources/OSMOS.py:682 | `str.replace` leaves a text without the pattern unchanged |
| Strings.ReplaceAllIsSplitJoin | Sources/OSMOS.py:716 | replacing every non-overlapping occurrence, left to right, equals cutting the text at the pattern and gluing the pieces with the replacement |
| Strings.ReplaceAllLength | Sources/OSMOS.py:682 | each occurrence replaced changes the length by the difference of pattern and replacement lengths |
| Strings.ReplaceAllSelf | Sources/OSMOS.py:682 | replacing a pattern by itself is the identity |
| Strings.ReplaceAllAt | Sources/OSMOS.py:682 | an occurrence of the pattern right after a prefix holding no earlier occurrence becomes the replacement; the prefix is kept and the scan resumes after it |
| Strings.ReplaceAllKeepsCount | Sources/OSMOS.py:769 | replacing a pattern without a character by a replacement without it keeps that character's count |
| Strings.ReplaceCharIsMap | Sources/OSMOSFiles.py:390 | a one-character replacement is a position-by-position character map |
| Strings.ReplaceCharRemoves | Sources/OSMOSFiles.py:390 | after replacing a character by a text without it, the character is gone |
| Strings.ReplaceAllKeepsOut | Sources/OSMOS.py:715 | a replacement never introduces a character that neither the text nor the replacement holds |
| Strings.Split | Sources/OSMOSFiles.py:380 | `split` gives at least one piece; the first piece is a prefix of the text; no piece holds the separator |
| Strings.SplitJoinRoundTrip | Sources/OSMOSFiles.py:305-308 | joining the pieces of a split with the separator restores the text |
| Strings.JoinSplitRoundTrip | Sources/OSMOSFiles.py:305-308 | splitting a join gives back the pieces when no piece holds the separator's first character |
| Strings.SplitWithoutSeparator | Sources/OSMOSFiles.py:380 | a text without the separator's first character splits into itself |
| Strings.SplitAfterPiece | Sources/OSMOSFiles.py:380 | a separator-free piece followed by the separator splits off as the first piece |
| Strings.SplitFindsSeparator | Sources/OSMOS.py:465-467 | a text splits into several pieces exactly when it contains the separator |
| Strings.SplitCharCount | Sources/Packages/File/CSVFile.py:233 | splitting on one character gives one more piece than its occurrences |
| Strings.SplitLastKeepsEnd | Sources/Packages/File/CSVFile.py:229-233 | the last piece keeps the text's last character when that character is not in the separator |
| Strings.JoinSnoc | Sources/OSMOS.py:502-506 | joining one more piece appends the separator and the piece |
| Strings.ContainsChar | Sources/OSMOS.py:787 | for a one-character pattern, `in` is membership |
| Strings.NatToString | Sources/OSMOS.py:470 | `str(n)` is a non-empty string of decimal digits |
| Strings.ParseNat | Sources/OSMOS.py:498 | `int(s)` succeeds exactly on non-empty digit strings and fails with ValueError otherwise |
| Strings.ParseNatOfString | Sources/OSMOS.py:498 | `int(str(n)) == n` |
| CsvFile.Column | Sources/Packages/File/CSVFile.py:234-236 | a column has one entry per data line, the k-th `;`-field of that line |
| CsvFile.ColumnsStep | Sources/Packages/File/CSVFile.py:234-236 | adding the column of field `k` extends the keys by its name and keeps every column whose name does not repeat later |
| CsvFile.HeaderNames | Sources/Packages/File/CSVFile.py:234-236 | the keys added for the first `k` fields are exactly the names among them |
| CsvFile.ColumnsOf | Sources/Packages/File/CSVFile.py:232-237 | the column loop succeeds exactly when every data line has as many fields as the header; the keys are the header names, and each last-occurring name holds its column |
| CsvFile.GetColumnDatas | Sources/Packages/File/CSVFile.py:224-239 | a non-`.csv` file gives the empty map and an empty file an IndexError. A data line too short for the header is an IndexError. The keys are exactly the header fields. The last occurrence of a repeated header name wins, and its column holds that field of every data line, in line order |
| CsvFile.LastHeaderKeepsNewline | Sources/Packages/File/CSVFile.py:229-233 | lines are not stripped: the last header key keeps the header line's newline |
| OsmosFiles.ParseReadStyle | Sources/OSMOS.py:620-633 | the read-style tag maps to a closed type that keeps the tag; only the four known names are not Unknown |
| OsmosFiles.ParseWriteStyle | Sources/OSMOS.py:636-653 | the write-style tag maps to a closed type that keeps the tag; only the five known names are not Unknown |
| OsmosFiles.FileCleanup | Sources/OSMOSFiles.py:128-132 | no occurrence of the element is left |
| OsmosFiles.FileCleanupCounts | Sources/OSMOSFiles.py:128-132 | the length drops by the element's count and every other element keeps its count |
| OsmosFiles.FileCleanupConcat | Sources/OSMOSFiles.py:128-132 | cleaning distributes over concatenation, so the other elements keep their relative order |
| OsmosFiles.FileCleanupIdempotent | Sources/OSMOSFiles.py:128-132 | cleaning twice is cleaning once |
| OsmosFiles.LoadCommandFile | Sources/OSMOSFiles.py:97-107 | loading succeeds exactly when every command-table column exists; each of the seven loaded lists (firmwares, read types, parameters, get, set, write types, write formats) is its column with blank cells dropped |
| OsmosFiles.LoadBoxFile | Sources/OSMOSFiles.py:92-95 | loading succeeds exactly when the three controller-box columns exist; networks, IPs and names are the `network`, `Adresse-IP` and `Racine-nom-CVS` columns with blank cells dropped |
| OsmosFiles.CdeFileParamList | Sources/OSMOSFiles.py:262 | the parameter list is exactly the cleaned `parameter` column: no blank cell, all other entries kept with their counts; a missing column is a KeyError |
| OsmosFiles.IndexOf | Sources/OSMOSFiles.py:285 | `list.index` gives the first position of the element, or ValueError when absent |
| OsmosFiles.MatchIndices | Sources/OSMOSFiles.py:200-204 | every listed position holds the key |
| OsmosFiles.MatchIndicesCount | Sources/OSMOSFiles.py:200-204 | there are as many positions as occurrences of the key |
| OsmosFiles.MatchIndicesIncreasing | Sources/OSMOSFiles.py:200-204 | the positions are strictly increasing, so row order is kept |
| OsmosFiles.MatchIndicesComplete | Sources/OSMOSFiles.py:200-204 | every position holding the key is listed |
| OsmosFiles.GatheredStep | Sources/OSMOSFiles.py:201-203 | one loop step appends the value exactly when the position matches |
| OsmosFiles.SelectWhere | Sources/OSMOSFiles.py:200-204 | the loop collects the value at every matching position, in position order; it fails exactly when a matching position has no value |
| OsmosFiles.CBFileNtwrkFilter | Sources/OSMOSFiles.py:200-204 | the IPs of exactly the rows of the network, in row order, one per matching row |
| OsmosFiles.CdeFileCmdFilter | Sources/OSMOSFiles.py:245-249 | the parameters of exactly the rows whose firmware cell equals the firmware, in row order |
| OsmosFiles.CBFileGetName | Sources/OSMOSFiles.py:223-228 | the name on the first row with the IP; None when no row has it; an IndexError exactly when that row has no name cell |
| OsmosFiles.RowIndex | Sources/OSMOSFiles.py:285 | the first row of the parameter, ValueError when it is absent |
| OsmosFiles.CdeFileReadWriteType | Sources/OSMOSFiles.py:285-289 | the styles of the parameter's first row, tags kept; an absent parameter is a ValueError |
| OsmosFiles.CdeFileGetFWAvail | Sources/OSMOSFiles.py:305-308 | the firmware cell's pieces rejoin with ", " to the cell, and no piece holds ", " |
| OsmosFiles.GetFormattedCmd | Sources/OSMOSFiles.py:334-349 | formatting succeeds exactly when the parameter has a row with a read style and a `get` template; an absent parameter is a ValueError |
| OsmosFiles.GetFormattedCmdIgnoresAxis | Sources/OSMOSFiles.py:334-341 | Unique and Message queries ignore the axis and are the get template itself |
| OsmosFiles.GetFormattedCmdSubstitutes | Sources/OSMOSFiles.py:342-349 | the other styles put the axis at every `x` of the get template, leaving no `x` for an `x`-free axis |
| OsmosFiles.Take | Sources/OSMOSFiles.py:381 | `pieces[:n]` is the prefix of length min(n, len) |
| OsmosFiles.WriteFormattedParam | Sources/OSMOSFiles.py:376-395 | the output ends with a newline and holds no `'`; an absent parameter is a ValueError |
| OsmosFiles.WriteFormattedParamPlain | Sources/OSMOSFiles.py:392-395 | a non-Sized template is kept whole, each `'` turned into `"` in place, plus a final newline |
| OsmosFiles.SizedTemplateLines | Sources/OSMOSFiles.py:378-390 | for a Sized template without real newlines, the output has min(size+1, pieces) newlines: the kept pieces on their own lines plus the final one |
| OsmosFiles.JoinLinesCount | Sources/OSMOSFiles.py:384-388 | newline-free pieces joined by newlines hold one newline fewer than there are pieces |
| OsmosFiles.PieceOfJoin | Sources/OSMOSFiles.py:384-388 | every piece of a join is contained, as a multiset of characters, in the joined text |
| OsmosFiles.MapCharKeepsOthers | Sources/OSMOSFiles.py:390 | turning `'` into `"` keeps the count of every other character |
| OsmosFiles.JoinLinesAsWritten | Sources/OSMOSFiles.py:384-388 | definition: the Sized re-join as the program writes it, where a piece is followed by a newline only when its text differs from the last piece's text (the as-written half of the finding below) |
| OsmosFiles.JoinAsWrittenAgrees | Sources/OSMOSFiles.py:384-388 | the join as written agrees with a newline join when no earlier piece equals the last one |
| OsmosFiles.WriteFormattedParamAsWritten | Sources/OSMOSFiles.py:378-395 | a Sized output equals the value-comparing join as written, quotes mapped, plus a newline, when no kept piece before the last equals it |
| OsmosFiles.SizedJoinDropsNewline | Sources/OSMOSFiles.py:384-388 | the join as written maps the pieces `X`, `X` to `XX`, where a newline join gives `X` newline `X` |
| Osmos.Ask | Sources/Packages/Controlbox/ControlBox.py:275-282 | the device answers exactly the commands ending in `?` or starting with `MG_`; any other command reads as None |
| Osmos.ReadAxes | Sources/OSMOS.py:669-675 | one query per axis, in axis order, each the formatted command for that axis, each answer the device's reply to it |
| Osmos.StdRead | Sources/OSMOS.py:669-675 | a Standard read sends eight queries for axes A..H in order and returns eight answers |
| Osmos.SingleRead | Sources/OSMOS.py:698-701 | a Unique or Message read sends the axis-free query once and returns a one-element list |
| Osmos.VectorAxesFor | Sources/OSMOS.py:826-838 | the vector axes are N, M exactly when the name ends in `I`, and S, T otherwise |
| Osmos.VectorRead | Sources/OSMOS.py:826-839 | a Vector read sends two queries over the vector axes; an empty name is an IndexError |
| Osmos.Answer | Sources/OSMOS.py:681 | an answer used as a string: IndexError past the end, the None failure for a declined command |
| Osmos.SubstituteAxes | Sources/OSMOS.py:680-682 | substitution succeeds exactly when every axis has an answer; a template without placeholders comes back unchanged |
| Osmos.SubstituteAxesSkips | Sources/OSMOS.py:680-682 | axes whose placeholder does not occur change nothing; the fill resumes after them |
| Osmos.SubstituteAxesOne | Sources/OSMOS.py:680-682 | `pre + <key><axis j>=v + post`, with no other placeholder around it, becomes `pre + <key><axis j>=<answer j> + post` |
| Osmos.StdWrite | Sources/OSMOS.py:678-684 | a Standard write needs all eight answers; a template without any `<param><axis>=v` comes back as the plain template |
| Osmos.StdWriteOne | Sources/OSMOS.py:676-683 | a Standard template `pre + <param><axis j>=v + post` is written as `pre + <param><axis j>=<answer j> + post` |
| Osmos.UniqueWrite | Sources/OSMOS.py:714-718 | every `v` of the template becomes the first answer with `, ` collapsed to `,`, that is, a join of the template's `v`-free pieces; no `v` remains when the answer has none |
| Osmos.NonZeroCount | Sources/OSMOS.py:751-754 | the count of answers other than "0" (None counts) is the length minus the multiplicity of "0", so at most the number of answers |
| Osmos.SizedSubst | Sources/OSMOS.py:759-769 | the substitution succeeds exactly when every axis has an answer; all-"0" answers change nothing |
| Osmos.SizedSkipsZeros | Sources/OSMOS.py:762-764 | "0" answers fill nothing and use up no line number |
| Osmos.SizedOneNonZero | Sources/OSMOS.py:759-769 | a single non-"0" answer on axis X fills line 1's `<param>x=v` with `<param>X=<answer>` |
| Osmos.SizedWrite | Sources/OSMOS.py:748-771 | for "BA" the output is the two-piece template whatever the answers; otherwise it needs all eight answers |
| Osmos.SizedSubstKeepsLines | Sources/OSMOS.py:759-769 | the line fill adds and removes no line break when the name and the answers have none |
| Osmos.SizedWriteLines | Sources/OSMOS.py:748-771 | for a Sized row whose template and eight answers have no line break, the write succeeds and the output has one line per non-"0" answer plus the size line, as far as the template's pieces go |
| Osmos.NonZeroCountAllZero | Sources/OSMOS.py:751-754 | all-"0" answers count zero |
| Osmos.SizedAllZero | Sources/OSMOS.py:748-771 | eight "0" answers give the template kept at size 0 (its first piece) with `size=v` turned into `size=0`, no line filled |
| Osmos.SpecialSubst | Sources/OSMOS.py:788-810 | the substitution succeeds exactly when every axis answer splits into enough fields |
| Osmos.SpecialWrite | Sources/OSMOS.py:785-812 | succeeds exactly when the template exists, answer 0 is present and, when it has 4 or 5 commas, every answer is present and splits into that many fields; a first answer with neither 4 nor 5 commas leaves the template as it is |
| Osmos.JoinCharCount | Sources/OSMOS.py:787 | comma-free fields joined by ", " hold one comma per separator |
| Osmos.SpecialAnswerRoundTrip | Sources/OSMOS.py:787-810 | an answer of k comma-free fields has k-1 commas, so it picks the k-field shape, and its split gives those fields back |
| Osmos.SpecialSubstSkips | Sources/OSMOS.py:788-810 | axes whose Special placeholder does not occur change nothing |
| Osmos.SpecialSubstOne | Sources/OSMOS.py:788-810 | the placeholder `<param><axis j>=a,b,c,d<e[>f]` takes the fields of answer j, rendered `f1,f2,f3,f4<f5[>f6]` |
| Osmos.SpecialWritePicks | Sources/OSMOS.py:787-799 | a first answer with 5 commas picks the six-field shape and one with 4 commas the five-field shape |
| Osmos.SpecialWriteOne | Sources/OSMOS.py:785-812 | answers `f1, ..., fk` of k = 5 or 6 comma-free fields render answer j's fields at axis j's placeholder |
| Osmos.VectorKey | Sources/OSMOS.py:852-854 | the key of a speed name (last character `I`) is its first two characters; otherwise the name itself |
| Osmos.VectorWrite | Sources/OSMOS.py:852-868 | a Vector write needs the two vector answers; a template without vector placeholders is unchanged; an empty name is an IndexError |
| Osmos.VectorWriteOne | Sources/OSMOS.py:852-868 | a Vector template `pre + <key><axis j>=v + post` is written as `pre + <key><axis j>=<answer j> + post`, with the speed key and axes for a name ending in `I` |
| Osmos.Read | Sources/OSMOS.py:620-630 | succeeds exactly when the query can be formatted and a Vector name is not empty; the commands are the queries formatted over the style's axes (eight, one, one and two) and the answers are the device's replies to them |
| Osmos.Write | Sources/OSMOS.py:636-655 | succeeds exactly when the style's template exists and every answer that style uses is present (and, for Special, well shaped); an unknown write style leaves the result unbound |
| Osmos.WriteWithoutAnswers | Sources/OSMOS.py:632-655 | after an unknown read style, only the "BA" Sized write succeeds, with the two-piece template |
| Osmos.ParamTrt | Sources/OSMOS.py:618-655 | an absent parameter is a ValueError; a block exists only for a known write style |
| Osmos.ParamTrtDispatch | Sources/OSMOS.py:618-655 | for a parameter with a row: an unknown read style gives the write without answers; a known one gives the row's write over the device's replies to that style's queries; an unformattable query or an empty Vector name is an IndexError |
| Osmos.ParamTrtStdOne | Sources/OSMOS.py:669-684 | a Standard/Standard row end to end: the placeholder of axis j in the template becomes `<param><axis j>=` followed by the device's reply to the query of axis j |
| Osmos.ParamTrtBAIgnoresDevice | Sources/OSMOS.py:748-751 | the "BA" Sized block is the same for every device |
| Osmos.DoesFWExists | Sources/OSMOS.py:881-887 | the firmware test succeeds exactly when the parameter's firmware cell exists |
| Osmos.DoesFWExistsListed | Sources/OSMOS.py:881-887 | for a cell listing comma-free names separated by ", ", the firmware is accepted exactly when it is one of the names |
| Osmos.Gather | Sources/OSMOS.py:435-437 | the blocks concatenate, and the body fails exactly when some parameter's block fails |
| Osmos.GatherAppend | Sources/OSMOS.py:435-437 | the body of a list is the body of its first part followed by that of its second |
| Osmos.GatherEmpty | Sources/OSMOS.py:435-437 | empty blocks give an empty body |
| Osmos.GatherOne | Sources/OSMOS.py:435-437 | a one-parameter list's body is its block |
| Osmos.Preamble | Sources/OSMOS.py:425-433 | definition: `[Configuration]`, `EO=false`, then the VF and PF lines carrying the device's answers to `VF?` and `PF?`, then `LZ=LZ 1`, each command line ending in a literal `\r` |
| Osmos.Block | Sources/OSMOS.py:436-437 | definition: a parameter the firmware supports contributes its `__ParamTrt` block, any other contributes nothing; a failing firmware lookup is the block's error |
| Osmos.BlockCases | Sources/OSMOS.py:435-437 | a supported parameter contributes its transcription; an unsupported one contributes nothing and no error; a failing firmware lookup fails the section |
| Osmos.TranscriptsAppend | Sources/OSMOS.py:435-437 | the blocks follow the parameter list order |
| Osmos.TranscriptsNoneSupported | Sources/OSMOS.py:435-437 | a list of parameters none of which the firmware supports has an empty body |
| Osmos.Configuration | Sources/OSMOS.py:424-440 | the section starts with `[Configuration]` and `EO=false`, then VF, PF and `LZ=LZ 1` lines, the blocks and the motor-off postamble; it fails exactly when a block fails |
| OsmosSections.ParseVariable | Sources/OSMOS.py:465-467 | a listing line parses exactly when it holds "= "; the name and value hold no "= "; the line is `name= value`, or starts with it followed by another "= " |
| OsmosSections.JoinTwoPieces | Sources/OSMOS.py:465-467 | a join of several pieces starts with its first two pieces and the separator |
| OsmosSections.ParseVariableOfLine | Sources/OSMOS.py:465-467 | `name= value` with `=`-free name and value parses back to that name and value |
| OsmosSections.VariableLines | Sources/OSMOS.py:464-472 | the entries succeed exactly when every line holds "= " |
| OsmosSections.VariableEntry | Sources/OSMOS.py:469-472 | definition: the `Variable\<k>\Name=` and `Variable\<k>\Value=` lines of variable number k |
| OsmosSections.VariableLinesOfListing | Sources/OSMOS.py:464-472 | a listing of `name= value` lines gives, in order and numbered from 1, the Name and Value lines of each variable |
| OsmosSections.ParseArray | Sources/OSMOS.py:486-490 | a listing line parses exactly when it holds `[`; the name holds no `[` and the length text no `]` |
| OsmosSections.ParseArrayOfLine | Sources/OSMOS.py:486-498 | `name[n]` with a `[`-free name parses back to the name and the length n |
| OsmosSections.ElementQuery | Sources/OSMOS.py:499-500 | definition: the query for element i of an array is `name[i]=?`, the request `GetVariable` sends (Sources/Packages/Controlbox/ControlBox.py:211) |
| OsmosSections.ElementAnswers | Sources/OSMOS.py:498-500 | element i's value is the device's answer to the query `name[i]=?` |
| OsmosSections.ReadArrayValues | Sources/OSMOS.py:497-506 | the element loop gives the n answers joined by ", ", with no trailing separator |
| OsmosSections.ArrayLines | Sources/OSMOS.py:485-508 | the array entries succeed exactly when every line has a `[` and a numeric length |
| OsmosSections.ArrayEntry | Sources/OSMOS.py:492-495 | definition: the `Array\<k>\Name=`, `Array\<k>\Size=` (the length as listed) and `Array\<k>\Value=` lines of array number k; the Value line is written at lines 507-508 |
| OsmosSections.ArrayValuesReadBack | Sources/OSMOS.py:497-506 | comma-free element answers split back from the Value line one by one |
| OsmosSections.ArrayLinesOfListing | Sources/OSMOS.py:485-508 | a listing of `name[n]` lines gives, in order and numbered from 1, each array's declaration and its n element answers joined by ", " |
| OsmosSections.Data | Sources/OSMOS.py:459-515 | the section is `[Data]`, the variable count and the variable entries, then the array count and the array entries and a blank line; it succeeds exactly when every variable and array line parses |
| OsmosSections.DataEmpty | Sources/OSMOS.py:474-514 | no variables and no arrays give two zero counts and a blank line |
| OsmosSections.DataOfListing | Sources/OSMOS.py:459-515 | for well-formed listings, the section holds each variable's name and value and each array's declaration and element answers, in order |
| OsmosSections.DeviceName | Sources/OSMOS.py:392 | the device field is the first seven characters of the firmware version with each `8` made `x`, position by position |
| OsmosSections.SystemInfo | Sources/OSMOS.py:390-398 | a firmware version shorter than six characters is an IndexError; the section starts with its title and ends with a newline |
| OsmosSections.JoinFiveLines | Sources/OSMOS.py:396-398 | five lines and a blank line, joined by newlines |
| OsmosSections.SystemInfoLines | Sources/OSMOS.py:390-398 | read line by line, the section is its title, the Firmware, Serial, Device and Axis fields, then a blank line |
| OsmosSections.FlattenMicrocode | Sources/OSMOS.py:538 | definition: every CR LF of the microcode becomes the two characters `\n` |
| OsmosSections.Program | Sources/OSMOS.py:536-540 | the section starts with `[Program]` and `Program="` and ends with `"` |
| OsmosSections.FlattenMicrocodeRoundTrip | Sources/OSMOS.py:538 | for microcode without backslashes, turning each `\n` back into CR LF restores the code |
| OsmosSections.IndexOfBefore | Sources/OSMOS.py:305-308 | an element present in a prefix is found by `index` inside that prefix |
| OsmosSections.IndexOfAt | Sources/OSMOS.py:305-308 | a position whose element is new in the prefix is where `index` finds it |
| OsmosSections.CollectedStep | Sources/OSMOS.py:305-308 | one loop step appends a network exactly when it is new, keeping the list distinct and ordered by first appearance |
| OsmosSections.GetAllNetworks | Sources/OSMOS.py:304-310 | each network once, exactly the networks of the table, in order of first appearance |

## Left out

- Files, the GUI and the device library: opening `.csv` files, logging,
  writing the `.bak` file, `OSMOSSeq`, and the search for the project
  directory are I/O. The tkinter front end and the gclib connection are not
  part of this model either. The device is a function parameter.
- `ControlBox.GetFWVersion`, `GetSerial`, `GetAllVariables`,
  `GetAllArrays` and `GetMicrocode`: their results are inputs of
  `OsmosSections.SystemInfo`, `OsmosSections.Data` and
  `OsmosSections.Program`. The splitting of the device's `GInfo` and `LV`
  answers that these wrappers do is not modelled.
- `UpdateCBFile`, `UpdateCdeFile`, `CBFileNtwrks` and `GetAllParameters`
  re-load a file or return a loaded column unchanged. The `set` column is
  loaded but no modelled operation uses it.
- Strings.ParseNat: Python's `int()` also accepts a sign, surrounding
  whitespace and digit-group underscores. The model accepts only plain ASCII
  digit strings; for the device's array lengths the two agree.
- Osmos.SpecialWrite: the rendering of an answer at its axis is stated by
  `Osmos.SpecialWriteOne` for one placeholder at a time, with no other
  axis's placeholder around it. A template holding several placeholders is
  not given its own lemma.
- Osmos.StdWrite, Osmos.VectorWrite: likewise, `Osmos.StdWriteOne` and
  `Osmos.VectorWriteOne` state the fill of one placeholder whose first
  occurrence is known, with no other axis's placeholder before or after it.
- Osmos.SizedWrite: the line count of the output is stated by
  `Osmos.SizedWriteLines` for templates and answers without a line break.
  The `size=<count>` line is stated only for eight "0" answers
  (`Osmos.SizedAllZero`); for other answers the model puts the count in
  place of `size=v` before the line fill, but no lemma shows that the fill
  leaves it intact.
- OsmosFiles.WriteFormattedParam: the Sized re-join is the corrected
  one-newline-per-piece join. The program's loop, which compares values,
  is `OsmosFiles.JoinLinesAsWritten`; the two agree when no kept piece
  before the last equals it (`OsmosFiles.WriteFormattedParamAsWritten`).
- Device failures: `GCommand` raising `GclibError` (for a command the
  controller rejects, or a lost connection) ends the whole run, in
  Sources/Packages/Controlbox/ControlBox.py:211 and 276-279. A box that is
  not connected makes `GetParameter` return `None` for every command
  (ControlBox.py:274). The model's device always answers a query.
- Osmos.SizedSubst: the lemmas pin down skipped "0" answers and the
  one-answer case. No lemma states the general k-th-non-zero-answer
  correspondence for several non-zero answers.
- OsmosSections.Program: the flattened code is not proved to be one line.
  A lone LF without CR stays in the text, as it does in the program; only
  the round trip back to CR LF is stated.
- Errors are modelled as error kinds only. A Python exception's message and
  traceback are not modelled.

## Findings

| source | as written | input that shows it | evidently intended | confidence | as-written member | corrected member |
|---|---|---|---|---|---|---|
| Sources/OSMOSFiles.py:384-388 | a Sized template piece gets its newline only if it is not EQUAL to the last kept piece (`elt != paramList[-1]`) | kept pieces `X`, `X` give `XX` | every kept piece but the last is followed by a newline (`X` newline `X`) | not executed | OsmosFiles.SizedJoinDropsNewline | OsmosFiles.SizedTemplateLines |
