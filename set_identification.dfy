/**
  The IDENTIFICATION section of a Becker & Hickl .SET file
  (`bh_set_identification`), read from the file's lines.

  The first line must end in `IDENTIFICATION`. Each following line, stripped,
  is either a key line `KEY: VALUE` (the first ':'-separated piece is the key,
  the remaining pieces re-joined with ':' are the value, every piece stripped)
  or, when it has no ':', a continuation appended with a space to the value of
  the most recent key. The section ends before the first line that starts
  with `*END`.
*/
module SetIdentification {
  import opened Wrappers
  import opened PyStr

  const Header := "IDENTIFICATION"
  const EndMarker := "*END"

  datatype IdError =
    | NotIdentificationSection   // the `assert` on the first line fails
    | ContinuationBeforeKey      // a line without ':' before any key: `key` is unbound
    | MissingEndMarker           // input ends before `*END`: the source never returns

  // ---------------------------------------------------------------------
  // One line

  /** `[s.strip() for s in pieces]` */
  function StripAll(pieces: seq<string>): (items: seq<string>)
    ensures |items| == |pieces|
    ensures forall i :: 0 <= i < |pieces| ==> items[i] == Strip(pieces[i])
  {
    if pieces == [] then [] else [Strip(pieces[0])] + StripAll(pieces[1..])
  }

  /** `[s.strip() for s in line.split(':')]` */
  function Items(line: string): (items: seq<string>)
    ensures |items| >= 1
    ensures |items| == 1 <==> !Contains(line, ":")
  {
    StripAll(Split(line, ":"))
  }

  /** A line of the section after stripping: `KEY: VALUE` or text without ':'. */
  datatype Line = KeyLine(key: string, value: string) | TextLine(text: string)

  /**
    How the loop reads one stripped line: with a ':' the first piece is the
    key and the other pieces, re-joined with ':', the value; without one the
    whole line is text to append.
  */
  function Classify(line: string): (l: Line)
    ensures l.TextLine? <==> !Contains(line, ":")
    ensures l.TextLine? ==> l.text == Strip(line)
    ensures l.KeyLine? ==> l.key == Strip(Split(line, ":")[0])
  {
    var item := Items(line);
    assert !Contains(line, ":") ==> item == [Strip(line)] by {
      if !Contains(line, ":") {
        SplitAbsent(line, ":");
      }
    }
    if |item| == 1 then TextLine(item[0]) else KeyLine(item[0], Join(":", item[1..]))
  }

  /**
    A line `KEY:V1:...:Vn` is the key `KEY` with the value `V1:...:Vn`, each
    piece stripped: only the first ':' separates key and value.
  */
  lemma {:induction false} KeyLineValue(k: string, vs: seq<string>)
    requires |vs| >= 1 && !Contains(k, ":")
    requires forall i :: 0 <= i < |vs| ==> !Contains(vs[i], ":")
    ensures Classify(k + ":" + Join(":", vs)) == KeyLine(Strip(k), Join(":", StripAll(vs)))
  {
    var line := k + ":" + Join(":", vs);
    assert Split(line, ":") == [k] + vs by {
      SplitFirstPiece(k, ":", Join(":", vs));
      SplitJoin(vs, ":");
    }
    var item := StripAll([k] + vs);
    assert item[1..] == StripAll(vs);
  }

  /** `KEY: VALUE` with a single ':' reads as the stripped key and the stripped value. */
  lemma {:induction false} KeyValueLine(k: string, v: string)
    requires !Contains(k, ":") && !Contains(v, ":")
    ensures Classify(k + ":" + v) == KeyLine(Strip(k), Strip(v))
  {
    assert Join(":", [v]) == v;
    KeyLineValue(k, [v]);
    assert StripAll([v]) == [Strip(v)];
    assert Join(":", [Strip(v)]) == Strip(v);
  }

  /** `line.strip().startswith('*END')` */
  predicate IsEnd(line: string) {
    StartsWith(Strip(line), EndMarker)
  }

  // ---------------------------------------------------------------------
  // Where the section ends

  /** The first line at or after `from` whose stripped text starts with `*END`. */
  function FindEnd(lines: seq<string>, from: nat): (e: Option<nat>)
    requires from <= |lines|
    ensures e.Some? ==> from <= e.value < |lines| && IsEnd(lines[e.value])
    ensures e.Some? ==> forall t :: from <= t < e.value ==> !IsEnd(lines[t])
    ensures e.None? ==> forall t :: from <= t < |lines| ==> !IsEnd(lines[t])
    decreases |lines| - from
  {
    if from == |lines| then None
    else if IsEnd(lines[from]) then Some(from)
    else FindEnd(lines, from + 1)
  }

  /** The lines after the header and before line `e`, stripped and classified. */
  function Body(lines: seq<string>, e: nat): (body: seq<Line>)
    requires 1 <= e <= |lines|
    ensures |body| == e - 1
    ensures forall k :: 0 <= k < e - 1 ==> body[k] == Classify(Strip(lines[k + 1]))
  {
    seq(e - 1, k requires 0 <= k < e - 1 => Classify(Strip(lines[k + 1])))
  }

  // ---------------------------------------------------------------------
  // Reference: the value of each key, read off the whole section at once

  /** Index of the last key line of any key. */
  function LastKeyLine(body: seq<Line>): (j: Option<nat>)
    ensures j.Some? ==> j.value < |body| && body[j.value].KeyLine?
    ensures j.Some? ==> forall t :: j.value < t < |body| ==> !body[t].KeyLine?
    ensures j.None? ==> forall t :: 0 <= t < |body| ==> !body[t].KeyLine?
  {
    if body == [] then None
    else if body[|body| - 1].KeyLine? then Some(|body| - 1)
    else LastKeyLine(body[..|body| - 1])
  }

  /** The key a line without ':' would extend: that of the last key line, if any. */
  function CurrentKey(body: seq<Line>): Option<string> {
    var j := LastKeyLine(body);
    if j.Some? then Some(body[j.value].key) else None
  }

  /** Index of the last key line that names `key`. */
  function LastDeclaration(body: seq<Line>, key: string): (j: Option<nat>)
    ensures j.Some? ==> j.value < |body| && body[j.value].KeyLine? && body[j.value].key == key
    ensures j.Some? ==> forall t :: j.value < t < |body| && body[t].KeyLine? ==> body[t].key != key
    ensures j.None? ==> forall t :: 0 <= t < |body| && body[t].KeyLine? ==> body[t].key != key
  {
    if body == [] then None
    else if body[|body| - 1].KeyLine? && body[|body| - 1].key == key then Some(|body| - 1)
    else LastDeclaration(body[..|body| - 1], key)
  }

  function DeclaredKeys(body: seq<Line>): set<string> {
    set j | 0 <= j < |body| && body[j].KeyLine? :: body[j].key
  }

  /** The continuation lines from `i` up to the next key line, each preceded by a space. */
  function Continuation(body: seq<Line>, i: nat): string
    decreases |body| - i
  {
    if i < |body| && !body[i].KeyLine? then " " + body[i].text + Continuation(body, i + 1)
    else ""
  }

  /** No key line at or after `i`. */
  ghost predicate NoKeyLineFrom(body: seq<Line>, i: nat) {
    forall t :: i <= t < |body| ==> !body[t].KeyLine?
  }

  /** No key line after line `j` names the key line `j` declares. */
  ghost predicate NotRedeclaredAfter(body: seq<Line>, j: nat)
    requires j < |body| && body[j].KeyLine?
  {
    forall t :: j < t < |body| && body[t].KeyLine? ==> body[t].key != body[j].key
  }

  function EntryValue(body: seq<Line>, key: string): string {
    var j := LastDeclaration(body, key);
    if j.Some? then body[j.value].value + Continuation(body, j.value + 1) else ""
  }

  /**
    Each declared key maps to the value of the last line declaring it,
    followed by the continuation lines directly after that line.
  */
  function Entries(body: seq<Line>): (e: map<string, string>)
    ensures forall key :: key in e <==> exists j :: 0 <= j < |body| && body[j].KeyLine? && body[j].key == key
  {
    map key | key in DeclaredKeys(body) :: EntryValue(body, key)
  }

  /** What `bh_set_identification` returns for the lines of a file, or why it fails. */
  function IdentificationSection(lines: seq<string>): (r: Result<map<string, string>, IdError>)
    ensures r.Success? <==>
      && |lines| > 0 && EndsWith(Strip(lines[0]), Header)
      && FindEnd(lines, 1).Some?
      && (FindEnd(lines, 1).value == 1 || Contains(Strip(lines[1]), ":"))
    ensures r == Failure(MissingEndMarker) ==> |lines| > 0 && FindEnd(lines, 1).None?
  {
    if |lines| == 0 || !EndsWith(Strip(lines[0]), Header) then Failure(NotIdentificationSection)
    else
      var end := FindEnd(lines, 1);
      var body := Body(lines, if end.Some? then end.value else |lines|);
      // At the end of input `readline` gives "", which is a line without ':'.
      if (|body| > 0 && !body[0].KeyLine?) || (|body| == 0 && end.None?) then Failure(ContinuationBeforeKey)
      else if end.None? then Failure(MissingEndMarker)
      else Success(Entries(body))
  }

  // ---------------------------------------------------------------------
  // bh_set_identification

  /**
    The line-by-line reader: `key` holds the most recent key and the map is
    updated in place, one line at a time.
  */
  method ReadIdentification(lines: seq<string>) returns (r: Result<map<string, string>, IdError>)
    ensures r == IdentificationSection(lines)
  {
    if |lines| == 0 || !EndsWith(Strip(lines[0]), Header) {
      return Failure(NotIdentificationSection);
    }
    var identification: map<string, string> := map[];
    var key: Option<string> := None;
    var i := 1;
    ghost var seen: seq<Line> := [];
    while i < |lines| && !IsEnd(lines[i])
      invariant 1 <= i <= |lines|
      invariant seen == Body(lines, i)
      invariant FindEnd(lines, 1) == FindEnd(lines, i)
      invariant seen != [] ==> seen[0].KeyLine?
      invariant key.None? <==> seen == []
      invariant key == CurrentKey(seen)
      invariant identification == Entries(seen)
      decreases |lines| - i
    {
      var line := Classify(Strip(lines[i]));
      BodyGrows(lines, i);
      CurrentKeyGrows(seen, line);
      match line {
        case TextLine(text) =>
          if key.None? {
              return Failure(ContinuationBeforeKey);
          }
          EntriesAddContinuation(seen, line);
          identification := identification[key.value := identification[key.value] + " " + text];
        case KeyLine(k, value) =>
          EntriesAddKeyLine(seen, line);
          key := Some(k);
          identification := identification[k := value];
      }
      seen := seen + [line];
      i := i + 1;
    }
    if i == |lines| {
      // `readline` now returns "" for ever: with no key bound that raises,
      // otherwise the loop keeps appending " " and never ends.
      if key.None? {
        return Failure(ContinuationBeforeKey);
      }
      return Failure(MissingEndMarker);
    }
    return Success(identification);
  }

  // ---------------------------------------------------------------------
  // How one more line changes the reference

  lemma {:induction false} BodyGrows(lines: seq<string>, i: nat)
    requires 1 <= i < |lines|
    ensures Body(lines, i + 1) == Body(lines, i) + [Classify(Strip(lines[i]))]
  {
  }

  lemma {:induction false} CurrentKeyGrows(body: seq<Line>, line: Line)
    ensures CurrentKey(body + [line]) == if line.KeyLine? then Some(line.key) else CurrentKey(body)
  {
    assert (body + [line])[..|body|] == body;
  }

  lemma {:induction false} ContinuationBeforeKeyLine(body: seq<Line>, line: Line, i: nat)
    requires line.KeyLine? && i <= |body|
    ensures Continuation(body + [line], i) == Continuation(body, i)
    decreases |body| - i
  {
    if i < |body| {
      ContinuationBeforeKeyLine(body, line, i + 1);
    }
  }

  lemma {:induction false} ContinuationBeforeContinuation(body: seq<Line>, line: Line, i: nat)
    requires !line.KeyLine? && i <= |body|
    ensures Continuation(body + [line], i)
         == if NoKeyLineFrom(body, i) then Continuation(body, i) + " " + line.text
            else Continuation(body, i)
    decreases |body| - i
  {
    var ext := body + [line];
    if i == |body| {
      assert Continuation(ext, i) == " " + line.text + Continuation(ext, i + 1);
    } else if !body[i].KeyLine? {
      ContinuationBeforeContinuation(body, line, i + 1);
      assert NoKeyLineFrom(body, i) == NoKeyLineFrom(body, i + 1);
    }
  }

  lemma {:induction false} LastDeclarationGrows(body: seq<Line>, line: Line, key: string)
    ensures LastDeclaration(body + [line], key)
         == if line.KeyLine? && line.key == key then Some(|body|) else LastDeclaration(body, key)
  {
    assert (body + [line])[..|body|] == body;
  }

  lemma {:induction false} DeclaredKeysGrow(body: seq<Line>, line: Line)
    ensures DeclaredKeys(body + [line])
         == if line.KeyLine? then DeclaredKeys(body) + {line.key} else DeclaredKeys(body)
  {
    var ext := body + [line];
    forall key | key in DeclaredKeys(ext)
      ensures key in DeclaredKeys(body) || (line.KeyLine? && key == line.key)
    {
      var j :| 0 <= j < |ext| && ext[j].KeyLine? && ext[j].key == key;
      if j < |body| {
        assert body[j] == ext[j];
      }
    }
    forall key | key in DeclaredKeys(body)
      ensures key in DeclaredKeys(ext)
    {
      var j :| 0 <= j < |body| && body[j].KeyLine? && body[j].key == key;
      assert ext[j] == body[j];
    }
    if line.KeyLine? {
      assert ext[|body|] == line;
    }
  }

  lemma {:induction false} EntryAfterKeyLine(body: seq<Line>, line: Line, key: string)
    requires line.KeyLine?
    ensures EntryValue(body + [line], key) == if key == line.key then line.value else EntryValue(body, key)
  {
    var ext := body + [line];
    LastDeclarationGrows(body, line, key);
    if key != line.key {
      var j := LastDeclaration(body, key);
      if j.Some? {
        assert ext[j.value] == body[j.value];
        ContinuationBeforeKeyLine(body, line, j.value + 1);
        assert EntryValue(ext, key) == body[j.value].value + Continuation(body, j.value + 1);
      }
    } else {
      assert ext[|body|] == line;
      assert Continuation(ext, |body| + 1) == "";
      assert EntryValue(ext, key) == line.value + "";
      assert line.value + "" == line.value;
    }
  }

  /** The line declaring `key` last is the last key line exactly when `key` is current. */
  lemma {:induction false} CurrentKeyDeclaredLast(body: seq<Line>, key: string, j: nat)
    requires LastDeclaration(body, key) == Some(j)
    ensures CurrentKey(body) == Some(key) <==> NoKeyLineFrom(body, j + 1)
  {
    var jc := LastKeyLine(body).value;
    if CurrentKey(body) == Some(key) {
      assert j == jc;
    } else {
      assert j < jc;
      assert body[jc].KeyLine?;
    }
  }

  /** A declared key has a last declaration. */
  lemma {:induction false} DeclaredKeyHasLastDeclaration(body: seq<Line>, key: string)
    requires key in DeclaredKeys(body)
    ensures LastDeclaration(body, key).Some?
  {
    var j :| 0 <= j < |body| && body[j].KeyLine? && body[j].key == key;
  }

  lemma {:induction false} EntryAfterContinuation(body: seq<Line>, line: Line, key: string, j: nat)
    requires !line.KeyLine? && LastDeclaration(body, key) == Some(j)
    ensures CurrentKey(body) == Some(key) ==> EntryValue(body + [line], key) == EntryValue(body, key) + " " + line.text
    ensures CurrentKey(body) != Some(key) ==> EntryValue(body + [line], key) == EntryValue(body, key)
  {
    var ext := body + [line];
    var value, rest := body[j].value, Continuation(body, j + 1);
    assert EntryValue(body, key) == value + rest;
    assert EntryValue(ext, key) == value + Continuation(ext, j + 1) by {
      LastDeclarationGrows(body, line, key);
      assert ext[j] == body[j];
    }
    if CurrentKey(body) == Some(key) {
      assert Continuation(ext, j + 1) == rest + " " + line.text by {
        ContinuationBeforeContinuation(body, line, j + 1);
        CurrentKeyDeclaredLast(body, key, j);
      }
      assert value + (rest + " " + line.text) == value + rest + " " + line.text;
    } else {
      assert Continuation(ext, j + 1) == rest by {
        ContinuationBeforeContinuation(body, line, j + 1);
        CurrentKeyDeclaredLast(body, key, j);
      }
    }
  }

  /** Rule for a key line: it (re)binds its key to its value, and no other key changes. */
  lemma {:induction false} EntriesAddKeyLine(body: seq<Line>, line: Line)
    requires line.KeyLine?
    ensures Entries(body + [line]) == Entries(body)[line.key := line.value]
  {
    DeclaredKeysGrow(body, line);
    forall key | key in DeclaredKeys(body + [line])
      ensures EntryValue(body + [line], key) == Entries(body)[line.key := line.value][key]
    {
      EntryAfterKeyLine(body, line, key);
    }
  }

  /**
    Rule for a line without ':': its stripped text is appended, after a
    space, to the value of the most recent key, and no other key changes.
  */
  lemma {:induction false} EntriesAddContinuation(body: seq<Line>, line: Line)
    requires !line.KeyLine? && CurrentKey(body).Some?
    ensures CurrentKey(body).value in Entries(body)
    ensures var current := CurrentKey(body).value;
      Entries(body + [line]) == Entries(body)[current := Entries(body)[current] + " " + line.text]
  {
    var jc := LastKeyLine(body).value;
    assert CurrentKey(body).value in DeclaredKeys(body);
    DeclaredKeysGrow(body, line);
    forall key | key in DeclaredKeys(body + [line])
      ensures EntryValue(body + [line], key)
           == Entries(body)[CurrentKey(body).value := Entries(body)[CurrentKey(body).value] + " " + line.text][key]
    {
      DeclaredKeyHasLastDeclaration(body, key);
      EntryAfterContinuation(body, line, key, LastDeclaration(body, key).value);
    }
  }

  /**
    A key line whose key no later key line names decides that key's entry:
    its value, then the continuation lines right after it.
  */
  lemma {:induction false} EntryOfLastDeclaration(body: seq<Line>, j: nat)
    requires j < |body| && body[j].KeyLine? && NotRedeclaredAfter(body, j)
    ensures body[j].key in Entries(body)
    ensures Entries(body)[body[j].key] == body[j].value + Continuation(body, j + 1)
  {
    var d := LastDeclaration(body, body[j].key);
    assert d.Some?;
    assert !(d.value > j) && !(d.value < j);
  }

  // ---------------------------------------------------------------------
  // The section ends at the first *END

  lemma {:induction false} FindEndInPrefix(lines: seq<string>, other: seq<string>, from: nat, e: nat)
    requires from <= e < |lines| && FindEnd(lines, from) == Some(e)
    requires e < |other| && other[..e + 1] == lines[..e + 1]
    ensures FindEnd(other, from) == Some(e)
    decreases e - from
  {
    assert other[from] == lines[from];
    if from < e {
      FindEndInPrefix(lines, other, from + 1, e);
    }
  }

  /** A file that agrees with `lines` up to the first `*END` has the same body. */
  lemma {:induction false} PrefixAgrees(lines: seq<string>, e: nat, tail: seq<string>)
    requires 1 <= |lines| && FindEnd(lines, 1) == Some(e)
    ensures var other := lines[..e + 1] + tail;
      && other[0] == lines[0]
      && FindEnd(other, 1) == Some(e)
      && Body(other, e) == Body(lines, e)
  {
    var other := lines[..e + 1] + tail;
    assert other[..e + 1] == lines[..e + 1];
    FindEndInPrefix(lines, other, 1, e);
    assert forall k :: 0 <= k <= e ==> other[k] == lines[k];
  }

  /** Nothing after the first `*END` line is read. */
  lemma {:induction false} LinesAfterEndIgnored(lines: seq<string>, e: nat, tail: seq<string>)
    requires 1 <= |lines| && FindEnd(lines, 1) == Some(e)
    ensures IdentificationSection(lines[..e + 1] + tail) == IdentificationSection(lines)
  {
    PrefixAgrees(lines, e, tail);
  }
}
