/** iniparser_load as it runs: a line buffer, a continuation offset and a dictionary. */
module IniLoader {
  import opened CText
  import opened CBuffers
  import opened Dictionary
  import opened IniLine
  import opened IniLoad

  /** Where fgets stops: at its room, at the end of the file, or behind the first newline. */
  lemma {:induction false} GetsIs(s: string, room: nat, i: nat)
    requires i <= room && i <= |s|
    requires forall k :: 0 <= k < i - 1 ==> s[k] != '\n'
    requires i == room || i == |s| || (i > 0 && s[i - 1] == '\n')
    ensures Gets(s, room) == s[..i]
  {
    if i == 0 || s[0] == '\n' {
    } else {
      GetsIs(s[1..], room - 1, i - 1);
      assert s[..i] == [s[0]] + s[1..][..i - 1];
    }
  }

  lemma BufferText(a: seq<char>, acc: string, chunk: string)
    requires |acc| + |chunk| < |a| && a[..|acc| + |chunk| + 1] == (acc + chunk) + [NUL]
    requires Without(acc, NUL)
    ensures Terminated(a) && TextOf(a) == acc + TextOf(chunk)
  {
    var n := |acc| + IndexOf(chunk, NUL);
    assert forall i :: 0 <= i <= |acc| + |chunk| ==> a[i] == ((acc + chunk) + [NUL])[i];
    assert a[n] == NUL;
    assert forall i :: 0 <= i < n ==> a[i] != NUL;
    IndexOfUnique(a, NUL, n);
    assert a[..n] == acc + chunk[..IndexOf(chunk, NUL)];
  }

  /** fgets(line + at, n, in) at file position `pos`, the file not being at its end. */
  method Fgets(input: string, pos: nat, line: array<char>, at: nat, n: nat) returns (next: nat, eof: bool)
    requires pos < |input| && n >= 2 && at + n <= line.Length
    requires Without(line[..at], NUL)
    modifies line
    ensures var chunk := Gets(input[pos..], n - 1);
            && next == pos + |chunk| <= |input| && eof == HitEof(chunk, n - 1)
            && input[next..] == input[pos..][|chunk|..]
            && Terminated(line[..]) && TextOf(line[..]) == old(line[..at]) + TextOf(chunk)
            && line[..at] == old(line[..at])
  {
    hide Gets, TextOf;
    var i := 0;
    while i < n - 1 && pos + i < |input| && (i == 0 || input[pos + i - 1] != '\n')
      invariant 0 <= i <= n - 1 && pos + i <= |input|
      invariant forall k :: 0 <= k < at ==> line[k] == old(line[k])
      invariant forall k :: at <= k < at + i ==> line[k] == input[k - at + pos]
      invariant forall k :: pos <= k < pos + i - 1 ==> input[k] != '\n'
      decreases n - 1 - i
    {
      line[at + i] := input[pos + i];
      i := i + 1;
    }
    line[at + i] := NUL;
    assert forall k :: 0 <= k < i - 1 ==> input[pos..][k] != '\n';
    GetsIs(input[pos..], n - 1, i);
    ghost var chunk := input[pos..][..i];
    assert line[..at] == old(line[..at]);
    assert line[at..at + i] == chunk;
    assert line[..at + i + 1] == (line[..at] + chunk) + [NUL];
    BufferText(line[..], line[..at], chunk);
    next, eof := pos + i, i < n - 1 && (i == 0 || input[pos + i - 1] != '\n');
  }

  /** Get rid of the newline and the blanks at the end of the line; the result is the index
      of the last character left, or 0. */
  method CutLineEnd(line: array<char>, len0: nat) returns (len: nat)
    requires Terminated(line[..]) && len0 + 1 == |TextOf(line[..])|
    modifies line
    ensures Terminated(line[..]) && TextOf(line[..]) == RTrim(old(TextOf(line[..])))
    ensures len < line.Length
    ensures line[len] == '\\' <==> EndsWith(TextOf(line[..]), '\\')
    ensures line[len] == '\\' ==> len == |TextOf(line[..])| - 1
  {
    ghost var text := TextOf(line[..]);
    TerminatedLength(line[..]);
    var k: int := len0;
    while k >= 0 && (line[k] == '\n' || IsSpace(line[k]))
      invariant -1 <= k <= len0
      invariant line[..k + 1] == text[..k + 1] && line[k + 1] == NUL
      invariant RTrim(text[..k + 1]) == RTrim(text)
      decreases k
    {
      assert text[..k + 1][..k] == text[..k];
      assert text[..k + 1][k] == line[k];
      line[k] := NUL;
      k := k - 1;
    }
    assert RTrim(text) == text[..k + 1];
    TextOfUnique(line[..], text[..k + 1]);
    if k < 0 {
      k := 0;
    }
    len := k;
  }

  /** The four buffers and the dictionary never share storage. */
  ghost predicate Separate(line: array<char>, section: array<char>, key: array<char>, val: array<char>, dict: Dict)
    reads dict
  {
    && line != section && line != key && line != val && section != key && section != val && key != val
    && line as object !in dict.Repr() && section as object !in dict.Repr()
    && key as object !in dict.Repr() && val as object !in dict.Repr()
    && line.Length == section.Length == key.Length == val.Length == ASCIILINESZ + 1
  }

  /** Section buffer, dictionary and error count stand for the loader state `st`. */
  ghost predicate Stands(st: Loader, section: array<char>, dict: Dict, errs: nat)
    reads section, dict, dict.val, dict.key, dict.hash
  {
    && dict.Valid() && Terminated(section[..])
    && st.section == TextOf(section[..]) && st.store == dict.contents && st.errs == errs
  }

  /** The first `last` characters of the line buffer are the pending text of `st`. */
  ghost predicate Holds(st: Loader, line: array<char>, last: nat)
    reads line
  {
    last + 2 <= ASCIILINESZ && last <= line.Length && st.acc == line[..last] && Without(st.acc, NUL)
  }

  /** The switch on the status of one logical line. */
  method Dispatch(line: array<char>, section: array<char>, key: array<char>, val: array<char>,
                  dict: Dict, errs: nat, ghost st: Loader) returns (errs': nat)
    requires Separate(line, section, key, val, dict) && Stands(st, section, dict, errs)
    requires Terminated(line[..])
    modifies section, key, val, dict.Repr()
    ensures fresh(dict.Repr() - old(dict.Repr()))
    ensures Stands(Process(st, old(TextOf(line[..]))), section, dict, errs')
  {
    hide Classify, Table, Represents, Cached, CountUsed, Dict.Valid, TextOf;
    errs' := errs;
    TerminatedLength(line[..]);
    var sta := ParseLine(TextOf(line[..]), section, key, val);
    match sta
    case LineEmpty =>
    case LineComment =>
    case LineSection =>
      var _ := dict.Set(TextOf(section[..]), None);
    case LineValue =>
      var tmp := TextOf(section[..]) + ":" + TextOf(key[..]);
      var _ := dict.Set(tmp, Some(TextOf(val[..])));
    case LineError =>
      errs' := errs' + 1;
  }

  /** What the loop does with the line buffer, once fgets has filled it. */
  method Inspect(line: array<char>, eof: bool) returns (v: Verdict)
    requires Terminated(line[..])
    modifies line
    ensures v == Judge(old(TextOf(line[..])), eof)
    ensures Terminated(line[..])
    ensures v.Skipped? ==> line[..] == old(line[..])
    ensures v.Pending? ==> |v.acc| < line.Length && line[..|v.acc|] == v.acc && Without(v.acc, NUL)
    ensures v.Complete? ==> TextOf(line[..]) == v.text
  {
    ghost var text := TextOf(line[..]);
    TerminatedLength(line[..]);
    var n := StrLen(line);
    if n <= 1 {
      return Skipped;
    }
    assert text[n - 1] == line[n - 1];
    if line[n - 1] != '\n' && !eof {
      return TooLong;
    }
    var len := CutLineEnd(line, n - 1);
    TerminatedLength(line[..]);
    if line[len] == '\\' {
      assert line[..len] == RTrim(text)[..len];
      return Pending(line[..len]);
    }
    return Complete(TextOf(line[..]));
  }

  /** The rest of the turn: keep the pending text, or dispatch the complete line. */
  method Apply(v: Verdict, line: array<char>, last: nat, section: array<char>, key: array<char>, val: array<char>,
               dict: Dict, errs: nat, ghost st: Loader) returns (last': nat, errs': nat)
    requires Separate(line, section, key, val, dict) && Stands(st, section, dict, errs)
    requires Terminated(line[..])
    requires v.Skipped? ==> Holds(st, line, last)
    requires v.Pending? ==> |v.acc| + 2 <= ASCIILINESZ && line[..|v.acc|] == v.acc && Without(v.acc, NUL)
    requires v.Complete? ==> TextOf(line[..]) == v.text
    modifies line, section, key, val, dict.Repr()
    ensures fresh(dict.Repr() - old(dict.Repr()))
    ensures var next := Outcome(st, v);
            next.Some? ==> Stands(next.value, section, dict, errs') && Holds(next.value, line, last')
  {
    hide Process, Table, Represents, Cached, CountUsed, Dict.Valid;
    last', errs' := last, errs;
    if v.Pending? {
      last' := |v.acc|;
    } else if v.Complete? {
      errs' := Dispatch(line, section, key, val, dict, errs, st.(acc := ""));
      forall i | 0 <= i < ASCIILINESZ {
        line[i] := NUL;
      }
      last' := 0;
      assert line[..0] == "";
    }
  }

  lemma RunTurn(st: Loader, input: string)
    requires Fits(st) && input != ""
    ensures var chunk := Gets(input, Room(st));
            var next := Step(st, chunk, HitEof(chunk, Room(st)));
            (next.Some? ==> Fits(next.value)) &&
            Run(st, input) == if next.None? then None else Run(next.value, input[|chunk|..])
  {
    hide Step;
  }

  /** One turn of the loop: fgets, the checks on the buffer, and the effect on the rest. */
  method Turn(input: string, pos: nat, line: array<char>, last: nat, section: array<char>, key: array<char>,
              val: array<char>, dict: Dict, errs: nat, ghost st: Loader)
      returns (tooLong: bool, pos': nat, last': nat, errs': nat, ghost st': Loader)
    requires pos < |input|
    requires Separate(line, section, key, val, dict) && Stands(st, section, dict, errs) && Holds(st, line, last)
    modifies line, section, key, val, dict.Repr()
    ensures fresh(dict.Repr() - old(dict.Repr())) && Separate(line, section, key, val, dict)
    ensures pos < pos' <= |input|
    ensures tooLong ==> Run(st, input[pos..]).None?
    ensures !tooLong ==> Fits(st') && Stands(st', section, dict, errs') && Holds(st', line, last')
    ensures !tooLong ==> Run(st', input[pos'..]) == Run(st, input[pos..])
  {
    hide Gets, HitEof, Run, Judge, Process, Table, Represents, Cached, CountUsed, Dict.Valid;
    last', errs', st' := last, errs, st;
    RunTurn(st, input[pos..]);
    var eof;
    pos', eof := Fgets(input, pos, line, last, ASCIILINESZ - last);
    ghost var next := OnLine(st, TextOf(line[..]), eof);
    var v := Inspect(line, eof);
    tooLong := v.TooLong?;
    if !tooLong {
      last', errs' := Apply(v, line, last, section, key, val, dict, errs, st);
      st' := next.value;
    }
  }

  /** A line-sized buffer after memset. */
  method ZeroedBuffer() returns (b: array<char>)
    ensures fresh(b) && b.Length == ASCIILINESZ + 1
    ensures Terminated(b[..]) && TextOf(b[..]) == ""
  {
    b := new char[ASCIILINESZ + 1](_ => NUL);
    TextOfUnique(b[..], "");
  }

  /** The local buffers of iniparser_load and a new dictionary. */
  method Workspace() returns (line: array<char>, section: array<char>, key: array<char>, val: array<char>, dict: Dict)
    ensures fresh(line) && fresh(section) && fresh(key) && fresh(val) && fresh(dict.Repr())
    ensures Separate(line, section, key, val, dict)
    ensures Stands(INIT, section, dict, 0) && Holds(INIT, line, 0)
  {
    hide TextOf, Table, Represents, Cached, CountUsed, Dict.Valid;
    line := ZeroedBuffer();
    section := ZeroedBuffer();
    key := ZeroedBuffer();
    val := ZeroedBuffer();
    dict := new Dict(0);
  }

  /** iniparser_load; `file` is None when the file cannot be opened. */
  method Load(file: Option<string>) returns (d: Dict?)
    ensures d == null <==> file.None? || LoadFile(file.value).None?
    ensures d != null ==> fresh(d.Repr()) && d.Valid() && Some(d.contents) == LoadFile(file.value)
  {
    hide Run, TextOf, Table, Represents, Cached, CountUsed, Dict.Valid, Separate, Holds;
    if file.None? {
      return null;
    }
    var input := file.value;
    var line, section, key, val, dict := Workspace();
    var pos: nat, last: nat, errs: nat := 0, 0, 0;
    ghost var st := INIT;
    assert input[0..] == input;
    while pos < |input|
      invariant pos <= |input|
      invariant Separate(line, section, key, val, dict) && fresh(dict.Repr())
      invariant Fits(st) && Stands(st, section, dict, errs) && Holds(st, line, last)
      invariant Run(st, input[pos..]) == Run(INIT, input)
      decreases |input| - pos
    {
      var tooLong;
      tooLong, pos, last, errs, st := Turn(input, pos, line, last, section, key, val, dict, errs, st);
      if tooLong {
        return null;
      }
    }
    assert input[pos..] == "";
    RunEmpty(st);
    if errs > 0 {
      return null;
    }
    return dict;
  }
}
