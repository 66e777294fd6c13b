/**
  The SYS_PARA section of a Becker & Hickl .SET file (`bh_set_sys_params`),
  read from the file's lines.

  Lines are stripped. A line `SYS_PARA_BEGIN:` switches reading on, the first
  line `SYS_PARA_END:` stops the scan (whether or not reading was on). While
  reading is on, every line starting with '#' defines one parameter: the
  line loses its first five characters and its last one (`#SP [` and `]` in
  the files the instrument writes), the rest is split on ',' into the key,
  a type tag and the value text, and the tag decides how the value is kept.
  A later definition of a key replaces an earlier one.
*/
module SetSysParams {
  import opened Wrappers
  import opened PyStr

  const BeginMarker := "SYS_PARA_BEGIN:"
  const EndMarker := "SYS_PARA_END:"

  /** The value stored for one parameter, chosen by its type tag. */
  datatype Value =
    | Bool(flag: bool)            // tag B: `bool(fields[2])`
    | Int(n: int)                 // tags I, U, L: `int(fields[2])`
    | Float(text: string)         // tag F: `float(fields[2])`, kept as its text
    | Str(s: string)              // tag S: `fields[2]`
    | Fields(items: seq<string>)  // any other tag: `fields[1:]`

  datatype Param = Param(key: string, value: Value)

  datatype ParamError =
    | MissingTag                  // `fields[1]` raises IndexError
    | MissingValue(tag: string)   // `fields[2]` raises IndexError
    | NotAnInteger(text: string)  // `int(fields[2])` raises ValueError

  // ---------------------------------------------------------------------
  // Decimal integers: `int(text)` and its inverse `str(n)`

  predicate IsDigit(c: char) {
    '0' <= c <= '9'
  }

  predicate AllDigits(s: string) {
    forall i :: 0 <= i < |s| ==> IsDigit(s[i])
  }

  /** The number a string of decimal digits denotes. */
  function DigitsValue(s: string): nat
    requires AllDigits(s)
  {
    if s == [] then 0 else 10 * DigitsValue(s[..|s| - 1]) + (s[|s| - 1] as int - '0' as int)
  }

  /**
    `int(text)` on a base-10 literal: white space around it, an optional
    sign, then one or more digits; anything else raises.
  */
  function ParseInt(text: string): (r: Option<int>)
    ensures r.Some? ==> Strip(text) != []
    ensures Strip(text) != [] && AllDigits(Strip(text)) ==> r == Some(DigitsValue(Strip(text)))
    ensures r.Some? && r.value < 0 ==> Strip(text)[0] == '-'
  {
    var t := Strip(text);
    var signed := t != [] && (t[0] == '-' || t[0] == '+');
    var digits := if signed then t[1..] else t;
    if digits != [] && AllDigits(digits) then
      var magnitude: int := DigitsValue(digits);
      Some(if signed && t[0] == '-' then -magnitude else magnitude)
    else None
  }

  function DigitChar(d: nat): (c: char)
    requires d < 10
    ensures IsDigit(c) && c as int - '0' as int == d
  {
    ('0' as int + d) as char
  }

  /** `str(n)` for a natural number: its decimal digits, most significant first. */
  function NatText(n: nat): (s: string)
    ensures s != [] && AllDigits(s)
    decreases n
  {
    if n < 10 then [DigitChar(n)] else NatText(n / 10) + [DigitChar(n % 10)]
  }

  /** `str(n)` */
  function IntText(n: int): string {
    if n < 0 then "-" + NatText(-n) else NatText(n)
  }

  lemma {:induction false} NatTextValue(n: nat)
    ensures DigitsValue(NatText(n)) == n
    decreases n
  {
    var s := NatText(n);
    if n >= 10 {
      NatTextValue(n / 10);
      assert s[..|s| - 1] == NatText(n / 10);
    }
  }

  /** `int(str(n)) == n` */
  lemma {:induction false} ParseIntText(n: int)
    ensures ParseInt(IntText(n)) == Some(n)
  {
    var s := IntText(n);
    var m := if n < 0 then -n else n;
    NatTextValue(m);
    var digits := NatText(m);
    assert IsDigit(digits[0]) && IsDigit(digits[|digits| - 1]);
    StripUnchanged(s);
    if n < 0 {
      assert s[1..] == digits;
    }
  }

  // ---------------------------------------------------------------------
  // One parameter line

  /** `line[5:-1].split(',')` */
  function FieldsOf(line: string): (fields: seq<string>)
    ensures |fields| >= 1
  {
    Split(Slice(line, 5, -1), ",")
  }

  predicate IsIntTag(tag: string) {
    tag == "I" || tag == "U" || tag == "L"
  }

  /** The value the tag `fields[1]` selects, or the exception the branch raises. */
  function TaggedValue(fields: seq<string>): (v: Result<Value, ParamError>)
    requires |fields| >= 2
    ensures v.Failure? ==> (fields[1] == "B" || IsIntTag(fields[1]) || fields[1] == "F" || fields[1] == "S")
    ensures v.Failure? ==> if |fields| < 3 then v.error == MissingValue(fields[1])
                           else IsIntTag(fields[1]) && ParseInt(fields[2]).None? && v.error == NotAnInteger(fields[2])
    ensures v.Success? && v.value.Int? ==> |fields| >= 3 && ParseInt(fields[2]) == Some(v.value.n)
    ensures v.Success? && v.value.Fields? ==> v.value.items == fields[1..]
  {
    var tag := fields[1];
    if tag == "B" || IsIntTag(tag) || tag == "F" || tag == "S" then
      if |fields| < 3 then Failure(MissingValue(tag))
      else if tag == "B" then Success(Bool(fields[2] != ""))
      else if IsIntTag(tag) then
        (match ParseInt(fields[2])
         case Some(n) => Success(Int(n))
         case None => Failure(NotAnInteger(fields[2])))
      else if tag == "F" then Success(Float(fields[2]))
      else Success(Str(fields[2]))
    else Success(Fields(fields[1..]))
  }

  /**
    Which value each tag selects: `B` the truth of a non-empty text, `I`, `U`
    and `L` an integer, `F` the float text, `S` the text itself, and any other
    tag the fields from the tag on.
  */
  lemma {:induction false} TagSelectsValue(fields: seq<string>)
    requires |fields| >= 2
    ensures |fields| >= 3 && fields[1] == "B" ==> TaggedValue(fields) == Success(Bool(fields[2] != ""))
    ensures |fields| >= 3 && IsIntTag(fields[1]) && TaggedValue(fields).Success? ==> TaggedValue(fields).value.Int?
    ensures |fields| >= 3 && fields[1] == "F" ==> TaggedValue(fields) == Success(Float(fields[2]))
    ensures |fields| >= 3 && fields[1] == "S" ==> TaggedValue(fields) == Success(Str(fields[2]))
    ensures !(fields[1] == "B" || IsIntTag(fields[1]) || fields[1] == "F" || fields[1] == "S") ==>
              TaggedValue(fields) == Success(Fields(fields[1..]))
  {
  }

  /** The parameter one `#` line defines, keyed by its first field, or the exception it raises. */
  function ParseParam(line: string): (r: Result<Param, ParamError>)
    ensures r.Success? ==> r.value.key == FieldsOf(line)[0]
    ensures r == Failure(MissingTag) <==> |FieldsOf(line)| == 1
  {
    var fields := FieldsOf(line);
    if |fields| < 2 then Failure(MissingTag)
    else
      match TaggedValue(fields)
      case Success(v) => Success(Param(fields[0], v))
      case Failure(e) => Failure(e)
  }

  /** How the instrument writes a parameter line: `#` + a two-letter group + ` [` + fields + `]`. */
  function ParamLine(group: string, fields: seq<string>): string {
    "#" + group + " [" + Join(",", fields) + "]"
  }

  predicate NoComma(fields: seq<string>) {
    forall i :: 0 <= i < |fields| ==> !Contains(fields[i], ",")
  }

  /** Slicing and splitting a written line gives back its fields. */
  lemma {:induction false} FieldsOfParamLine(group: string, fields: seq<string>)
    requires |group| == 2 && |fields| >= 1 && NoComma(fields)
    ensures FieldsOf(ParamLine(group, fields)) == fields
  {
    var body := Join(",", fields);
    var line := ParamLine(group, fields);
    assert Slice(line, 5, -1) == body by {
      SliceFiveToLast(line);
      if |line| > 6 {
        assert line[5..|line| - 1] == body;
      }
    }
    SplitJoin(fields, ",");
  }

  /** Tags I, U and L: the value text is read back as the integer it spells. */
  lemma {:induction false} IntParamRoundTrip(group: string, key: string, tag: string, n: int)
    requires |group| == 2 && IsIntTag(tag) && NoComma([key, tag, IntText(n)])
    ensures ParseParam(ParamLine(group, [key, tag, IntText(n)])) == Success(Param(key, Int(n)))
  {
    FieldsOfParamLine(group, [key, tag, IntText(n)]);
    ParseIntText(n);
  }

  /** Tag S keeps the value text; tag F keeps it too (the float it spells is not modelled). */
  lemma {:induction false} TextParamRoundTrip(group: string, key: string, tag: string, text: string)
    requires |group| == 2 && (tag == "S" || tag == "F") && NoComma([key, tag, text])
    ensures ParseParam(ParamLine(group, [key, tag, text]))
         == Success(Param(key, if tag == "S" then Str(text) else Float(text)))
  {
    FieldsOfParamLine(group, [key, tag, text]);
  }

  /** Tag B is true exactly when the value text is not empty. */
  lemma {:induction false} BoolParamRoundTrip(group: string, key: string, text: string)
    requires |group| == 2 && NoComma([key, "B", text])
    ensures ParseParam(ParamLine(group, [key, "B", text])) == Success(Param(key, Bool(text != "")))
  {
    FieldsOfParamLine(group, [key, "B", text]);
  }

  /** Any other tag keeps every field after the key, the tag included. */
  lemma {:induction false} OtherParamRoundTrip(group: string, key: string, rest: seq<string>)
    requires |group| == 2 && |rest| >= 1 && NoComma([key] + rest)
    requires var tag := rest[0]; !(tag == "B" || IsIntTag(tag) || tag == "F" || tag == "S")
    ensures ParseParam(ParamLine(group, [key] + rest)) == Success(Param(key, Fields(rest)))
  {
    FieldsOfParamLine(group, [key] + rest);
    assert ([key] + rest)[1..] == rest;
  }

  /** A known tag without a value field raises, and so does an integer tag whose text is not a number. */
  lemma {:induction false} ParamErrors(group: string, key: string, tag: string, text: string)
    requires |group| == 2 && NoComma([key, tag, text])
    ensures (tag == "B" || IsIntTag(tag) || tag == "F" || tag == "S")
         ==> ParseParam(ParamLine(group, [key, tag])) == Failure(MissingValue(tag))
    ensures IsIntTag(tag) && ParseInt(text).None?
         ==> ParseParam(ParamLine(group, [key, tag, text])) == Failure(NotAnInteger(text))
    ensures ParseParam(ParamLine(group, [key])) == Failure(MissingTag)
  {
    assert NoComma([key, tag]) && NoComma([key]) by {
      assert !Contains(key, ",") && !Contains(tag, ",") by {
        assert [key, tag, text][0] == key && [key, tag, text][1] == tag;
      }
    }
    assert (tag == "B" || IsIntTag(tag) || tag == "F" || tag == "S")
        ==> ParseParam(ParamLine(group, [key, tag])) == Failure(MissingValue(tag)) by {
      FieldsOfParamLine(group, [key, tag]);
    }
    assert IsIntTag(tag) && ParseInt(text).None?
        ==> ParseParam(ParamLine(group, [key, tag, text])) == Failure(NotAnInteger(text)) by {
      FieldsOfParamLine(group, [key, tag, text]);
    }
    assert ParseParam(ParamLine(group, [key])) == Failure(MissingTag) by {
      FieldsOfParamLine(group, [key]);
    }
  }

  // ---------------------------------------------------------------------
  // Which lines are read

  /** Index of the first line at or after `from` that strips to `SYS_PARA_END:`, or `|lines|`. */
  function EndAt(lines: seq<string>, from: nat): (e: nat)
    requires from <= |lines|
    ensures from <= e <= |lines|
    ensures e < |lines| ==> Strip(lines[e]) == EndMarker
    ensures forall t :: from <= t < e ==> Strip(lines[t]) != EndMarker
    decreases |lines| - from
  {
    if from == |lines| then |lines|
    else if Strip(lines[from]) == EndMarker then from
    else EndAt(lines, from + 1)
  }

  /** Some line before line `i` strips to `SYS_PARA_BEGIN:`. */
  predicate Started(lines: seq<string>, i: nat)
    requires i <= |lines|
  {
    i > 0 && (Strip(lines[i - 1]) == BeginMarker || Started(lines, i - 1))
  }

  /** Line `k` defines a parameter once reading is on: it starts with '#'. */
  predicate IsParamLine(lines: seq<string>, k: nat)
    requires k < |lines|
  {
    var line := Strip(lines[k]);
    Started(lines, k) && line != BeginMarker && StartsWith(line, "#")
  }

  /** The stripped parameter lines among the first `n` lines, in file order. */
  function ParamLinesBefore(lines: seq<string>, n: nat): seq<string>
    requires n <= |lines|
  {
    if n == 0 then []
    else ParamLinesBefore(lines, n - 1) + (if IsParamLine(lines, n - 1) then [Strip(lines[n - 1])] else [])
  }

  /** The parameter lines before the first `SYS_PARA_END:`. */
  function ParamLines(lines: seq<string>): (ls: seq<string>)
    ensures forall l :: l in ls ==> StartsWith(l, "#")
  {
    ParamLinesStartWithHash(lines, EndAt(lines, 0));
    ParamLinesBefore(lines, EndAt(lines, 0))
  }

  // ---------------------------------------------------------------------
  // Reference: the section read off all at once

  /** Every line parsed, in order; the first line that raises decides the error. */
  function ParseAll(ls: seq<string>): (r: Result<seq<Param>, ParamError>)
    ensures r.Success? ==> |r.value| == |ls|
  {
    if ls == [] then Success([])
    else
      match ParseParam(ls[0])
      case Failure(e) => Failure(e)
      case Success(p) =>
        match ParseAll(ls[1..])
        case Failure(e) => Failure(e)
        case Success(ps) => Success([p] + ps)
  }

  /** The dictionary that assigning the parameters in order leaves. */
  function LastWins(ps: seq<Param>): (m: map<string, Value>)
    ensures forall i :: 0 <= i < |ps| ==> ps[i].key in m
  {
    if ps == [] then map[] else LastWins(ps[..|ps| - 1])[ps[|ps| - 1].key := ps[|ps| - 1].value]
  }

  /** What `bh_set_sys_params` returns for the lines of a file, or why it fails. */
  function SysParamsSection(lines: seq<string>): (r: Result<map<string, Value>, ParamError>)
    ensures r.Success? ==> forall l :: l in ParamLines(lines) ==> FieldsOf(l)[0] in r.value
  {
    ParseAllSucceeds(ParamLines(lines));
    match ParseAll(ParamLines(lines))
    case Failure(e) => Failure(e)
    case Success(ps) => Success(LastWins(ps))
  }

  // ---------------------------------------------------------------------
  // bh_set_sys_params

  /** The scan: a `start` flag, a dictionary updated in place, and a stop at the end marker. */
  method ReadSysParams(lines: seq<string>) returns (r: Result<map<string, Value>, ParamError>)
    ensures r == SysParamsSection(lines)
  {
    var start := false;
    var sysParams: map<string, Value> := map[];
    ghost var params: seq<Param> := [];
    for i := 0 to |lines|
      invariant EndAt(lines, 0) == EndAt(lines, i)
      invariant start == Started(lines, i)
      invariant ParseAll(ParamLinesBefore(lines, i)) == Success(params)
      invariant sysParams == LastWins(params)
    {
      var line := Strip(lines[i]);
      if line == BeginMarker {
        start := true;
        BeginLineStep(lines, i);
        continue;
      }
      if line == EndMarker {
        // `break`, and the dictionary read so far is returned
        SectionReadUpTo(lines, i, params);
        return Success(sysParams);
      }
      OtherLineStep(lines, i);
      if start && StartsWith(line, "#") {
        var p := ParseParam(line);
        if p.Failure? {
          FailureEndsSection(lines, i);
          return Failure(p.error);
        }
        ParamLineRead(lines, i, params);
        sysParams := sysParams[p.value.key := p.value.value];
        params := params + [p.value];
      }
    }
    SectionReadUpTo(lines, |lines|, params);
    return Success(sysParams);
  }

  // ---------------------------------------------------------------------
  // Properties

  /** Reading one more line: an earlier error stands, otherwise the line's own result is added. */
  lemma {:induction false} ParseAllAppend(ls: seq<string>, line: string)
    ensures ParseAll(ls + [line])
         == match ParseAll(ls)
            case Failure(e) => Failure(e)
            case Success(ps) =>
              (match ParseParam(line)
               case Failure(e) => Failure(e)
               case Success(p) => Success(ps + [p]))
  {
    if ls != [] {
      assert (ls + [line])[0] == ls[0];
      assert (ls + [line])[1..] == ls[1..] + [line];
      ParseAllAppend(ls[1..], line);
      match ParseParam(ls[0]) {
        case Failure(_) =>
        case Success(first) =>
          match ParseAll(ls[1..]) {
            case Failure(_) =>
            case Success(ps) =>
              match ParseParam(line) {
                case Failure(_) =>
                case Success(p) =>
                  assert [first] + (ps + [p]) == [first] + ps + [p];
              }
          }
      }
    } else {
      assert [line][1..] == [];
      match ParseParam(line) {
        case Failure(_) =>
        case Success(p) => assert [p] + [] == [] + [p];
      }
    }
  }

  /** One more line: whether it starts reading, is read, or stops the scan. */
  lemma {:induction false} ParamLinesStep(lines: seq<string>, i: nat)
    requires i < |lines|
    ensures Started(lines, i + 1) == (Strip(lines[i]) == BeginMarker || Started(lines, i))
    ensures ParamLinesBefore(lines, i + 1)
         == ParamLinesBefore(lines, i) + if IsParamLine(lines, i) then [Strip(lines[i])] else []
    ensures Strip(lines[i]) != EndMarker ==> EndAt(lines, i) == EndAt(lines, i + 1)
    ensures Strip(lines[i]) == EndMarker ==> EndAt(lines, i) == i
  {
  }

  /** The `SYS_PARA_BEGIN:` line turns reading on and is not itself read. */
  lemma {:induction false} BeginLineStep(lines: seq<string>, i: nat)
    requires i < |lines| && Strip(lines[i]) == BeginMarker
    ensures Started(lines, i + 1)
    ensures ParamLinesBefore(lines, i + 1) == ParamLinesBefore(lines, i)
    ensures EndAt(lines, i) == EndAt(lines, i + 1)
  {
    ParamLinesStep(lines, i);
    MarkersDiffer();
  }

  /** A line that is neither marker keeps the reading state; it is read exactly when it is a parameter line. */
  lemma {:induction false} OtherLineStep(lines: seq<string>, i: nat)
    requires i < |lines| && Strip(lines[i]) != BeginMarker && Strip(lines[i]) != EndMarker
    ensures Started(lines, i + 1) == Started(lines, i)
    ensures EndAt(lines, i) == EndAt(lines, i + 1)
    ensures IsParamLine(lines, i) == (Started(lines, i) && StartsWith(Strip(lines[i]), "#"))
    ensures !IsParamLine(lines, i) ==> ParamLinesBefore(lines, i + 1) == ParamLinesBefore(lines, i)
  {
    ParamLinesStep(lines, i);
  }

  /** Reading stops at line `i` (the end marker, or the end of the file) with the parameters read so far. */
  lemma {:induction false} SectionReadUpTo(lines: seq<string>, i: nat, params: seq<Param>)
    requires i <= |lines| && EndAt(lines, 0) == EndAt(lines, i)
    requires i < |lines| ==> Strip(lines[i]) == EndMarker
    requires ParseAll(ParamLinesBefore(lines, i)) == Success(params)
    ensures SysParamsSection(lines) == Success(LastWins(params))
  {
    assert EndAt(lines, i) == i;
  }

  /** A parameter line that parses adds its parameter, and its assignment, to those read so far. */
  lemma {:induction false} ParamLineRead(lines: seq<string>, i: nat, params: seq<Param>)
    requires i < |lines| && IsParamLine(lines, i)
    requires ParseAll(ParamLinesBefore(lines, i)) == Success(params)
    requires ParseParam(Strip(lines[i])).Success?
    ensures var p := ParseParam(Strip(lines[i])).value;
      && ParseAll(ParamLinesBefore(lines, i + 1)) == Success(params + [p])
      && LastWins(params + [p]) == LastWins(params)[p.key := p.value]
  {
    var p := ParseParam(Strip(lines[i])).value;
    ParamLinesStep(lines, i);
    ParseAllAppend(ParamLinesBefore(lines, i), Strip(lines[i]));
    assert (params + [p])[..|params|] == params;
  }

  /** The parameter lines of a shorter prefix of the file come first among those of a longer one. */
  lemma {:induction false} ParamLinesPrefix(lines: seq<string>, i: nat, j: nat)
    requires i <= j <= |lines|
    ensures |ParamLinesBefore(lines, i)| <= |ParamLinesBefore(lines, j)|
    ensures ParamLinesBefore(lines, j)[..|ParamLinesBefore(lines, i)|] == ParamLinesBefore(lines, i)
    decreases j - i
  {
    if i < j {
      ParamLinesPrefix(lines, i, j - 1);
      var shorter := ParamLinesBefore(lines, i);
      var middle := ParamLinesBefore(lines, j - 1);
      assert ParamLinesBefore(lines, j)[..|middle|] == middle;
      assert ParamLinesBefore(lines, j)[..|shorter|] == middle[..|shorter|];
    }
  }

  /** Once a prefix of the lines fails to parse, no later line matters. */
  lemma {:induction false} ParseAllFailedPrefix(ls: seq<string>, n: nat)
    requires n <= |ls| && ParseAll(ls[..n]).Failure?
    ensures ParseAll(ls) == ParseAll(ls[..n])
  {
    assert n > 0;
    assert ls[..n][0] == ls[0];
    assert ls[..n][1..] == ls[1..][..n - 1];
    if ParseParam(ls[0]).Success? {
      ParseAllFailedPrefix(ls[1..], n - 1);
    }
  }

  /** A parameter line that raises ends the whole section with its error. */
  lemma {:induction false} FailureEndsSection(lines: seq<string>, i: nat)
    requires i < EndAt(lines, 0) && IsParamLine(lines, i)
    requires ParseAll(ParamLinesBefore(lines, i)).Success? && ParseParam(Strip(lines[i])).Failure?
    ensures SysParamsSection(lines) == Failure(ParseParam(Strip(lines[i])).error)
  {
    var upTo := ParamLinesBefore(lines, i + 1);
    ParamLinesStep(lines, i);
    ParseAllAppend(ParamLinesBefore(lines, i), Strip(lines[i]));
    ParamLinesPrefix(lines, i + 1, EndAt(lines, 0));
    ParseAllFailedPrefix(ParamLines(lines), |upTo|);
  }

  /** The section is read exactly when every parameter line parses, each into its own parameter. */
  lemma {:induction false} ParseAllSucceeds(ls: seq<string>)
    ensures ParseAll(ls).Success? <==> forall i :: 0 <= i < |ls| ==> ParseParam(ls[i]).Success?
    ensures ParseAll(ls).Success? ==>
      |ParseAll(ls).value| == |ls| && forall i :: 0 <= i < |ls| ==> ParseAll(ls).value[i] == ParseParam(ls[i]).value
  {
    if ls != [] {
      ParseAllSucceeds(ls[1..]);
      assert forall i :: 1 <= i < |ls| ==> ls[i] == ls[1..][i - 1];
    }
  }

  /** A failure is the error of the first line that does not parse. */
  lemma {:induction false} ParseAllFirstError(ls: seq<string>, i: nat)
    requires i < |ls| && ParseParam(ls[i]).Failure?
    requires forall j :: 0 <= j < i ==> ParseParam(ls[j]).Success?
    ensures ParseAll(ls) == Failure(ParseParam(ls[i]).error)
    decreases i
  {
    if i > 0 {
      assert forall j :: 0 <= j < i - 1 ==> ls[1..][j] == ls[j + 1];
      ParseAllFirstError(ls[1..], i - 1);
    }
  }

  /** The keys of the dictionary are the keys of the parameters. */
  lemma {:induction false} LastWinsKeys(ps: seq<Param>)
    ensures LastWins(ps).Keys == set p | p in ps :: p.key
  {
    if ps != [] {
      var init := ps[..|ps| - 1];
      LastWinsKeys(init);
      assert ps == init + [ps[|ps| - 1]];
      assert (set p | p in ps :: p.key) == (set p | p in init :: p.key) + {ps[|ps| - 1].key};
    }
  }

  /** A later definition of a key replaces every earlier one. */
  lemma {:induction false} LaterDefinitionWins(ps: seq<Param>, i: nat)
    requires i < |ps|
    requires forall j :: i < j < |ps| ==> ps[j].key != ps[i].key
    ensures ps[i].key in LastWins(ps) && LastWins(ps)[ps[i].key] == ps[i].value
  {
    if i < |ps| - 1 {
      var init := ps[..|ps| - 1];
      assert forall j :: i < j < |init| ==> init[j] == ps[j];
      LaterDefinitionWins(init, i);
    }
  }

  /** Only lines that start with '#' are read. */
  lemma {:induction false} ParamLinesStartWithHash(lines: seq<string>, n: nat)
    requires n <= |lines|
    ensures forall l :: l in ParamLinesBefore(lines, n) ==> StartsWith(l, "#")
  {
    if n > 0 {
      ParamLinesStartWithHash(lines, n - 1);
    }
  }

  lemma {:induction false} StartedInPrefix(lines: seq<string>, other: seq<string>, n: nat)
    requires n <= |lines| && n <= |other| && lines[..n] == other[..n]
    ensures Started(lines, n) == Started(other, n)
  {
    if n > 0 {
      assert lines[n - 1] == lines[..n][n - 1] == other[n - 1];
      assert lines[..n - 1] == lines[..n][..n - 1];
      assert other[..n - 1] == other[..n][..n - 1];
      StartedInPrefix(lines, other, n - 1);
    }
  }

  lemma {:induction false} ParamLinesInPrefix(lines: seq<string>, other: seq<string>, n: nat)
    requires n <= |lines| && n <= |other| && lines[..n] == other[..n]
    ensures ParamLinesBefore(lines, n) == ParamLinesBefore(other, n)
  {
    if n > 0 {
      assert lines[n - 1] == lines[..n][n - 1] == other[n - 1];
      assert lines[..n - 1] == lines[..n][..n - 1];
      assert other[..n - 1] == other[..n][..n - 1];
      StartedInPrefix(lines, other, n - 1);
      ParamLinesInPrefix(lines, other, n - 1);
    }
  }

  /** A file that agrees with `lines` up to the first end marker has the same parameter lines. */
  lemma {:induction false} PrefixAgrees(lines: seq<string>, e: nat, tail: seq<string>)
    requires e == EndAt(lines, 0) < |lines|
    ensures EndAt(lines[..e + 1] + tail, 0) == e
    ensures ParamLines(lines[..e + 1] + tail) == ParamLines(lines)
  {
    var other := lines[..e + 1] + tail;
    assert forall t :: 0 <= t <= e ==> other[t] == lines[t];
    assert EndAt(other, 0) == e;
    assert other[..e] == lines[..e];
    ParamLinesInPrefix(lines, other, e);
  }

  /** Nothing from the first `SYS_PARA_END:` line onward is read. */
  lemma {:induction false} LinesAfterEndIgnored(lines: seq<string>, tail: seq<string>)
    requires EndAt(lines, 0) < |lines|
    ensures SysParamsSection(lines[..EndAt(lines, 0) + 1] + tail) == SysParamsSection(lines)
  {
    PrefixAgrees(lines, EndAt(lines, 0), tail);
    SameParamLinesSameSection(lines[..EndAt(lines, 0) + 1] + tail, lines);
  }

  /** The section is a function of the parameter lines alone. */
  lemma {:induction false} SameParamLinesSameSection(a: seq<string>, b: seq<string>)
    requires ParamLines(a) == ParamLines(b)
    ensures SysParamsSection(a) == SysParamsSection(b)
  {
  }

  lemma {:induction false} NotStartedBefore(head: seq<string>, lines: seq<string>, n: nat)
    requires n <= |head|
    requires forall t :: 0 <= t < |head| ==> Strip(head[t]) != BeginMarker
    ensures !Started(head + lines, n) && ParamLinesBefore(head + lines, n) == []
  {
    if n > 0 {
      assert (head + lines)[n - 1] == head[n - 1];
      NotStartedBefore(head, lines, n - 1);
    }
  }

  lemma {:induction false} ShiftedParamLines(head: seq<string>, lines: seq<string>, n: nat)
    requires n <= |lines|
    requires forall t :: 0 <= t < |head| ==> Strip(head[t]) != BeginMarker
    ensures Started(head + lines, |head| + n) == Started(lines, n)
    ensures ParamLinesBefore(head + lines, |head| + n) == ParamLinesBefore(lines, n)
  {
    if n == 0 {
      NotStartedBefore(head, lines, |head|);
    } else {
      assert (head + lines)[|head| + n - 1] == lines[n - 1];
      ShiftedParamLines(head, lines, n - 1);
    }
  }

  lemma {:induction false} ShiftedEnd(head: seq<string>, lines: seq<string>, from: nat)
    requires from <= |lines|
    ensures EndAt(head + lines, |head| + from) == |head| + EndAt(lines, from)
    decreases |lines| - from
  {
    if from < |lines| {
      assert (head + lines)[|head| + from] == lines[from];
      ShiftedEnd(head, lines, from + 1);
    }
  }

  lemma {:induction false} EndNotInHead(head: seq<string>, lines: seq<string>, from: nat)
    requires from <= |head|
    requires forall t :: 0 <= t < |head| ==> Strip(head[t]) != EndMarker
    ensures EndAt(head + lines, from) == EndAt(head + lines, |head|)
    decreases |head| - from
  {
    if from < |head| {
      assert (head + lines)[from] == head[from];
      EndNotInHead(head, lines, from + 1);
    }
  }

  /** Lines before the section that are neither marker are ignored, even those starting with '#'. */
  lemma {:induction false} LinesBeforeBeginIgnored(head: seq<string>, lines: seq<string>)
    requires forall t :: 0 <= t < |head| ==> Strip(head[t]) != BeginMarker && Strip(head[t]) != EndMarker
    ensures SysParamsSection(head + lines) == SysParamsSection(lines)
  {
    ParamLinesAfterHead(head, lines);
    SameParamLinesSameSection(head + lines, lines);
  }

  lemma {:induction false} ParamLinesAfterHead(head: seq<string>, lines: seq<string>)
    requires forall t :: 0 <= t < |head| ==> Strip(head[t]) != BeginMarker && Strip(head[t]) != EndMarker
    ensures ParamLines(head + lines) == ParamLines(lines)
  {
    var all := head + lines;
    var e := EndAt(lines, 0);
    assert EndAt(all, 0) == |head| + e by {
      ShiftedEnd(head, lines, 0);
      EndNotInHead(head, lines, 0);
    }
    ShiftedParamLines(head, lines, e);
  }

  // ---------------------------------------------------------------------
  // Every '#' line between the markers is read, in order

  /** The stripped lines of `ls` that start with '#', in order. */
  function HashLines(ls: seq<string>): seq<string>
  {
    if ls == [] then []
    else
      var line := Strip(ls[|ls| - 1]);
      HashLines(ls[..|ls| - 1]) + (if StartsWith(line, "#") then [line] else [])
  }

  lemma MarkersDiffer()
    ensures BeginMarker != EndMarker
  {
    assert BeginMarker[9] != EndMarker[9];
  }

  lemma BeginMarkerIsNoParamLine()
    ensures !StartsWith(BeginMarker, "#")
  {
    assert BeginMarker[0] == 'S';
  }

  /** After the line `b` that opens the section, the first `k` lines of `mid` give their '#' lines. */
  lemma {:induction false} ReadAfterBegin(b: string, mid: seq<string>, tail: seq<string>, k: nat)
    requires Strip(b) == BeginMarker && k <= |mid|
    ensures Started([b] + mid + tail, 1 + k)
    ensures ParamLinesBefore([b] + mid + tail, 1 + k) == HashLines(mid[..k])
  {
    var lines := [b] + mid + tail;
    if k == 0 {
      assert lines[0] == b;
      assert mid[..0] == [];
    } else {
      ReadAfterBegin(b, mid, tail, k - 1);
      var line := Strip(mid[k - 1]);
      assert lines[k] == mid[k - 1];
      assert IsParamLine(lines, k) == StartsWith(line, "#") by {
        BeginMarkerIsNoParamLine();
      }
      assert HashLines(mid[..k]) == HashLines(mid[..k - 1]) + if StartsWith(line, "#") then [line] else [] by {
        assert mid[..k][..k - 1] == mid[..k - 1];
      }
      ParamLinesStep(lines, k);
    }
  }

  /** With no end marker in `mid`, reading stops at the marker `e` that follows it. */
  lemma {:induction false} SectionEndsAtMarker(b: string, mid: seq<string>, e: string, post: seq<string>)
    requires Strip(b) == BeginMarker && Strip(e) == EndMarker
    requires forall t :: 0 <= t < |mid| ==> Strip(mid[t]) != EndMarker
    ensures EndAt([b] + mid + ([e] + post), 0) == 1 + |mid|
  {
    var rest := [b] + mid + ([e] + post);
    assert rest[1 + |mid|] == e;
    assert rest[0] == b;
    MarkersDiffer();
    forall t | 1 <= t < 1 + |mid|
      ensures Strip(rest[t]) != EndMarker
    {
      assert rest[t] == mid[t - 1];
    }
  }

  /** A file that opens with the section: its '#' lines up to the first end marker are read. */
  lemma {:induction false} SectionAtStartRead(b: string, mid: seq<string>, e: string, post: seq<string>)
    requires Strip(b) == BeginMarker && Strip(e) == EndMarker
    requires forall t :: 0 <= t < |mid| ==> Strip(mid[t]) != EndMarker
    ensures ParamLines([b] + mid + ([e] + post)) == HashLines(mid)
  {
    SectionEndsAtMarker(b, mid, e, post);
    ReadAfterBegin(b, mid, [e] + post, |mid|);
    assert mid[..|mid|] == mid;
  }

  /**
    Every line between `SYS_PARA_BEGIN:` and the first `SYS_PARA_END:` that
    starts with '#' after stripping is read, in file order, and no other line is.
  */
  lemma {:induction false} SectionLinesRead(pre: seq<string>, b: string, mid: seq<string>, e: string, post: seq<string>)
    requires forall t :: 0 <= t < |pre| ==> Strip(pre[t]) != BeginMarker && Strip(pre[t]) != EndMarker
    requires Strip(b) == BeginMarker && Strip(e) == EndMarker
    requires forall t :: 0 <= t < |mid| ==> Strip(mid[t]) != EndMarker
    ensures ParamLines(pre + [b] + mid + [e] + post) == HashLines(mid)
  {
    var rest := [b] + mid + ([e] + post);
    assert pre + [b] + mid + [e] + post == pre + rest;
    ParamLinesAfterHead(pre, rest);
    SectionAtStartRead(b, mid, e, post);
  }


  // ---------------------------------------------------------------------
  // A line that is neither a marker nor a '#' line is skipped

  /** Past the inserted line, the end marker sits one line further on. */
  lemma {:induction false} EndAfterInserted(pre: seq<string>, x: string, post: seq<string>, m: nat)
    requires m <= |post|
    ensures EndAt(pre + [x] + post, |pre| + 1 + m) == EndAt(pre + post, |pre| + m) + 1
    decreases |post| - m
  {
    var a, b := pre + [x] + post, pre + post;
    if m < |post| {
      assert a[|pre| + 1 + m] == post[m] == b[|pre| + m];
      EndAfterInserted(pre, x, post, m + 1);
    }
  }

  /** Before the inserted line the end is found at the same place; at or after it, one line later. */
  lemma {:induction false} EndWithInserted(pre: seq<string>, x: string, post: seq<string>, from: nat)
    requires from <= |pre| && Strip(x) != EndMarker
    ensures EndAt(pre + post, from) < |pre| ==> EndAt(pre + [x] + post, from) == EndAt(pre + post, from)
    ensures EndAt(pre + post, from) >= |pre| ==> EndAt(pre + [x] + post, from) == EndAt(pre + post, from) + 1
    decreases |pre| - from
  {
    var a, b := pre + [x] + post, pre + post;
    if from < |pre| {
      assert a[from] == pre[from] == b[from];
      EndWithInserted(pre, x, post, from + 1);
    } else {
      assert a[|pre|] == x;
      EndAfterInserted(pre, x, post, 0);
    }
  }

  /** Past the inserted line, the same lines have been read, and reading is on exactly when it was. */
  lemma {:induction false} ParamLinesAfterInserted(pre: seq<string>, x: string, post: seq<string>, n: nat)
    requires n <= |post| && Strip(x) != BeginMarker && !StartsWith(Strip(x), "#")
    ensures Started(pre + [x] + post, |pre| + 1 + n) == Started(pre + post, |pre| + n)
    ensures ParamLinesBefore(pre + [x] + post, |pre| + 1 + n) == ParamLinesBefore(pre + post, |pre| + n)
  {
    var a, b := pre + [x] + post, pre + post;
    if n == 0 {
      assert a[..|pre|] == pre == b[..|pre|];
      StartedInPrefix(a, b, |pre|);
      ParamLinesInPrefix(a, b, |pre|);
      assert a[|pre|] == x;
      assert !IsParamLine(a, |pre|);
    } else {
      assert a[|pre| + n] == post[n - 1] == b[|pre| + n - 1];
      ParamLinesAfterInserted(pre, x, post, n - 1);
    }
  }

  lemma {:induction false} SameParamLinesBeforeEnd(a: seq<string>, b: seq<string>, ea: nat, eb: nat)
    requires ea == EndAt(a, 0) && eb == EndAt(b, 0)
    requires ParamLinesBefore(a, ea) == ParamLinesBefore(b, eb)
    ensures ParamLines(a) == ParamLines(b)
  {
  }

  /** A line that strips to neither marker and does not start with '#' changes nothing, wherever it stands. */
  lemma {:induction false} OtherLineIgnored(pre: seq<string>, x: string, post: seq<string>)
    requires Strip(x) != BeginMarker && Strip(x) != EndMarker && !StartsWith(Strip(x), "#")
    ensures SysParamsSection(pre + [x] + post) == SysParamsSection(pre + post)
  {
    if EndAt(pre + post, 0) < |pre| {
      InsertedAfterEnd(pre, x, post);
    } else {
      InsertedBeforeEnd(pre, x, post);
    }
    SameParamLinesSameSection(pre + [x] + post, pre + post);
  }

  /** A line inserted after the end marker changes no parameter line. */
  lemma {:induction false} InsertedAfterEnd(pre: seq<string>, x: string, post: seq<string>)
    requires Strip(x) != EndMarker && EndAt(pre + post, 0) < |pre|
    ensures ParamLines(pre + [x] + post) == ParamLines(pre + post)
  {
    var a, b := pre + [x] + post, pre + post;
    var e := EndAt(b, 0);
    assert EndAt(a, 0) == e by {
      EndWithInserted(pre, x, post, 0);
    }
    assert a[..e] == pre[..e] == b[..e];
    ParamLinesInPrefix(a, b, e);
    SameParamLinesBeforeEnd(a, b, e, e);
  }

  /** A line inserted before the end marker that is neither marker nor '#' line changes no parameter line. */
  lemma {:induction false} InsertedBeforeEnd(pre: seq<string>, x: string, post: seq<string>)
    requires Strip(x) != BeginMarker && Strip(x) != EndMarker && !StartsWith(Strip(x), "#")
    requires EndAt(pre + post, 0) >= |pre|
    ensures ParamLines(pre + [x] + post) == ParamLines(pre + post)
  {
    var a, b := pre + [x] + post, pre + post;
    var eb := EndAt(b, 0);
    var ea := EndAt(a, 0);
    assert ea == eb + 1 by {
      EndWithInserted(pre, x, post, 0);
    }
    var n := eb - |pre|;
    assert ParamLinesBefore(a, ea) == ParamLinesBefore(b, eb) by {
      ParamLinesAfterInserted(pre, x, post, n);
    }
    SameParamLinesBeforeEnd(a, b, ea, eb);
  }

}
