/** The ini loader: fgets, continuation lines, and the loop over the lines of a file. */
module IniLoad {
  import opened CText
  import opened CBuffers
  import opened Dictionary
  import opened IniLine

  /** Size of the line buffer handed to fgets. */
  const ASCIILINESZ: nat := 1024

  /** What fgets reads with room for `room` characters: up to and including a newline. */
  function Gets(input: string, room: nat): (chunk: string)
    ensures |chunk| <= room && |chunk| <= |input|
    ensures input != "" && room > 0 ==> chunk != ""
  {
    if input == "" || room == 0 then ""
    else if input[0] == '\n' then "\n"
    else [input[0]] + Gets(input[1..], room - 1)
  }

  predicate EndsWith(s: string, c: char) {
    s != "" && s[|s| - 1] == c
  }

  /** fgets met the end of the file while reading this chunk. */
  predicate HitEof(chunk: string, room: nat) {
    |chunk| < room && !EndsWith(chunk, '\n')
  }

  /** The loader between two calls of fgets: the pending continuation text (`line[..last]`),
      the current section, the dictionary and the number of syntax errors. */
  datatype Loader = Loader(acc: string, section: string, store: Store, errs: nat)

  const INIT := Loader("", "", map[], 0)

  /** One complete logical line. */
  function Process(st: Loader, text: string): (r: Loader)
    ensures r.acc == st.acc
  {
    match Classify(text, st.section)
    case Empty => st
    case Comment => st
    case Section(name) => st.(section := name, store := st.store[name := None])
    case Value(k, v) => st.(store := st.store[st.section + ":" + k := Some(v)])
    case Error => st.(errs := st.errs + 1)
  }

  /** What the loop makes of the text now in the line buffer. */
  datatype Verdict = Skipped | TooLong | Pending(acc: string) | Complete(text: string)

  lemma RTrimIsShort(s: string)
    ensures |RTrim(s)| <= |s|
  {
    var _ := RTrimSplits(s);
  }

  function Judge(line: string, eof: bool): (v: Verdict)
    ensures v.Pending? ==> |v.acc| < |line|
  {
    if |line| <= 1 then Skipped
    else if line[|line| - 1] != '\n' && !eof then TooLong
    else
      var text := RTrim(line);
      RTrimIsShort(line);
      if EndsWith(text, '\\') then Pending(text[..|text| - 1]) else Complete(text)
  }

  function Outcome(st: Loader, v: Verdict): Option<Loader> {
    match v
    case Skipped => Some(st)
    case TooLong => None
    case Pending(acc) => Some(st.(acc := acc))
    case Complete(text) => Some(Process(st.(acc := ""), text))
  }

  /** One turn of the loop on that text; None when the line does not fit. */
  function OnLine(st: Loader, line: string, eof: bool): (r: Option<Loader>)
    ensures r.Some? ==> r.value.acc == st.acc || |r.value.acc| < |line|
  {
    Outcome(st, Judge(line, eof))
  }

  /** One turn of the loop after fgets appended `chunk` to the pending text. */
  function Step(st: Loader, chunk: string, eof: bool): (r: Option<Loader>)
    ensures r.Some? ==> r.value.acc == st.acc || |r.value.acc| < |st.acc| + |chunk|
  {
    OnLine(st, st.acc + TextOf(chunk), eof)
  }

  predicate Fits(st: Loader) {
    |st.acc| + 2 <= ASCIILINESZ
  }

  /** The room left for fgets, its terminating NUL deducted. */
  function Room(st: Loader): nat
    requires Fits(st)
  {
    ASCIILINESZ - |st.acc| - 1
  }

  /** The loop from a given state over the rest of the file. */
  function Run(st: Loader, input: string): Option<Loader>
    requires Fits(st)
    decreases |input|
  {
    if input == "" then Some(st)
    else
      var chunk := Gets(input, Room(st));
      var next := Step(st, chunk, HitEof(chunk, Room(st)));
      if next.None? then None else Run(next.value, input[|chunk|..])
  }

  /** What iniparser_load returns from the state at the end of the file. */
  function Finished(st: Loader): Option<Store> {
    if st.errs > 0 then None else Some(st.store)
  }

  /** iniparser_load on an opened file: None stands for the NULL answer. */
  function LoadFile(input: string): Option<Store> {
    var end := Run(INIT, input);
    if end.None? then None else Finished(end.value)
  }

  // Reading line by line.

  lemma {:induction false} GetsLine(f: string, rest: string, room: nat)
    requires Without(f, '\n') && |f| < room
    ensures Gets(f + "\n" + rest, room) == f + "\n"
  {
    if f == "" {
      assert f + "\n" + rest == "\n" + rest;
    } else {
      assert (f + "\n" + rest)[1..] == f[1..] + "\n" + rest;
      GetsLine(f[1..], rest, room - 1);
    }
  }

  lemma {:induction false} GetsAppend(f: string, rest: string, room: nat)
    requires Without(f, '\n')
    ensures Gets(f + rest, room) == if |f| <= room then f + Gets(rest, room - |f|) else f[..room]
  {
    if f == "" {
      assert f + rest == rest;
    } else if room > 0 {
      assert (f + rest)[1..] == f[1..] + rest;
      GetsAppend(f[1..], rest, room - 1);
    }
  }

  lemma {:induction false} GetsAhead(e: string, x: string, room: nat)
    requires EndsWith(e, '\n')
    ensures Gets(e + x, room) == Gets(e, room)
  {
    if room == 0 || e[0] == '\n' {
    } else {
      assert (e + x)[1..] == e[1..] + x;
      GetsAhead(e[1..], x, room - 1);
    }
  }

  lemma {:induction false} GetsBeforeEof(e: string, room: nat)
    requires EndsWith(e, '\n')
    ensures !HitEof(Gets(e, room), room)
  {
    if room == 0 || e[0] == '\n' {
    } else {
      GetsBeforeEof(e[1..], room - 1);
      LastOfSum([e[0]], Gets(e[1..], room - 1));
    }
  }

  lemma {:induction false} GetsIsPrefix(input: string, room: nat)
    ensures Gets(input, room) <= input
    ensures input != "" && room > 0 ==> Gets(input, room)[0] == input[0]
  {
    if input == "" || room == 0 || input[0] == '\n' {
    } else {
      GetsIsPrefix(input[1..], room - 1);
    }
  }

  lemma GetsInside(e: string, x: string, room: nat)
    requires EndsWith(e, '\n')
    ensures Gets(e + x, room) == Gets(e, room)
    ensures !HitEof(Gets(e, room), room)
    ensures Gets(e, room) == e[..|Gets(e, room)|]
  {
    hide Gets, HitEof;
    GetsAhead(e, x, room);
    GetsBeforeEof(e, room);
    GetsIsPrefix(e, room);
  }

  /** The loop over two parts of a file split behind a newline. */
  lemma {:induction false} RunAppend(st: Loader, e: string, x: string)
    requires Fits(st)
    requires e == "" || EndsWith(e, '\n')
    ensures var mid := Run(st, e);
            (mid.Some? ==> Fits(mid.value)) &&
            Run(st, e + x) == if mid.None? then None else Run(mid.value, x)
    decreases |e|
  {
    if e == "" {
      assert e + x == x;
    } else {
      var room := Room(st);
      GetsInside(e, x, room);
      var chunk := Gets(e, room);
      var next := Step(st, chunk, HitEof(chunk, room));
      if next.Some? {
        assert (e + x)[|chunk|..] == e[|chunk|..] + x;
        RunAppend(next.value, e[|chunk|..], x);
      }
    }
  }

  // Continuation lines.

  lemma TextOfAppend(f: string, t: string)
    requires Without(f, NUL)
    ensures TextOf(f + t) == f + TextOf(t)
  {
    assert forall i :: 0 <= i < |f| + IndexOf(t, NUL) ==> (f + t)[i] != NUL;
    IndexOfUnique(f + t, NUL, |f| + IndexOf(t, NUL));
  }

  lemma TextOfPlain(f: string)
    requires Without(f, NUL)
    ensures TextOf(f) == f
  {
    IndexOfUnique(f, NUL, |f|);
  }

  lemma RunUnfolds(st: Loader, chunk: string, rest: string)
    requires Fits(st) && chunk != ""
    requires Gets(chunk + rest, Room(st)) == chunk
    ensures var next := Step(st, chunk, HitEof(chunk, Room(st)));
            (next.Some? ==> Fits(next.value)) &&
            Run(st, chunk + rest) == if next.None? then None else Run(next.value, rest)
  {
    hide Step, Gets;
    assert (chunk + rest)[|chunk|..] == rest;
  }

  lemma RunEmpty(st: Loader)
    requires Fits(st)
    ensures Run(st, "") == Some(st)
  {
  }

  /** Only the text in the buffer matters, not how it got there. */
  lemma OnLineForgets(st: Loader, acc: string, line: string, eof: bool)
    requires |line| > 1
    ensures OnLine(st.(acc := acc), line, eof) == OnLine(st, line, eof)
  {
    hide Process;
    assert st.(acc := acc).(acc := "") == st.(acc := "");
  }

  lemma OnContinuedLine(st: Loader, text: string, eof: bool)
    ensures OnLine(st, text + "\\\n", eof) == Some(st.(acc := text))
  {
    hide Process;
    var line := text + "\\\n";
    assert line == (text + "\\") + "\n";
    RTrimDropsBlanks(text + "\\", "\n");
    assert (text + "\\")[..|text|] == text;
  }

  /** A backslash-newline behind `f` only moves `f` into the pending text. */
  lemma BreakStep(st: Loader, f: string, r: string)
    requires |st.acc| + |f| + 2 < ASCIILINESZ
    requires Without(f, '\n') && Without(f, NUL)
    ensures Run(st, f + "\\\n" + r) == Run(st.(acc := st.acc + f), r)
  {
    hide OnLine, Run, Gets;
    var chunk := f + "\\\n";
    GetsLine(f + "\\", r, Room(st));
    assert (f + "\\") + "\n" == chunk;
    TextOfPlain(chunk);
    assert st.acc + chunk == (st.acc + f) + "\\\n";
    OnContinuedLine(st, st.acc + f, HitEof(chunk, Room(st)));
    RunUnfolds(st, chunk, r);
  }

  /** Reading `r` behind pending text reads what reading the joined text would add. */
  lemma SplitRead(f: string, r: string, room: nat) returns (chunk: string, rest: string)
    requires |f| < room
    requires Without(f, '\n') && r != "" && r[0] != NUL
    ensures chunk == Gets(r, room - |f|) && f + chunk == Gets(f + r, room)
    ensures r == chunk + rest && f + r == (f + chunk) + rest
    ensures chunk != "" && TextOf(chunk) != ""
    ensures HitEof(f + chunk, room) == HitEof(chunk, room - |f|)
  {
    hide Gets;
    chunk := Gets(r, room - |f|);
    GetsIsPrefix(r, room - |f|);
    rest := r[|chunk|..];
    GetsAppend(f, r, room);
    LastOfSum(f, chunk);
    assert chunk[0] == r[0];
  }

  lemma SameStep(st: Loader, f: string, text: string, eof: bool)
    requires text != ""
    ensures OnLine(st.(acc := st.acc + f), st.acc + f + text, eof) == OnLine(st, st.acc + f + text, eof)
  {
    if |st.acc + f + text| <= 1 {
      assert st.acc + f == st.acc;
    } else {
      OnLineForgets(st, st.acc + f, st.acc + f + text, eof);
    }
  }

  /** The pending text and the text still in the file are the same thing to the loop. */
  lemma PendingIsText(st: Loader, f: string, r: string)
    requires |st.acc| + |f| + 2 <= ASCIILINESZ
    requires Without(f, '\n') && Without(f, NUL)
    requires r != "" && r[0] != NUL
    ensures Run(st.(acc := st.acc + f), r) == Run(st, f + r)
  {
    hide OnLine, Run, Gets, HitEof, TextOf;
    var st1 := st.(acc := st.acc + f);
    var chunk, rest := SplitRead(f, r, Room(st));
    TextOfAppend(f, chunk);
    var text, eof := TextOf(chunk), HitEof(chunk, Room(st1));
    assert st1.acc + text == st.acc + (f + text);
    RunUnfolds(st1, chunk, rest);
    RunUnfolds(st, f + chunk, rest);
    SameStep(st, f, text, eof);
  }

  /** A line that fills the buffer without a newline is refused. */
  lemma OverlongLine(st: Loader, g: string, r: string)
    requires Fits(st) && |g| >= Room(st)
    requires Without(g, '\n') && Without(g, NUL)
    ensures Run(st, g + r) == None
  {
    hide Run, Gets;
    var room := Room(st);
    GetsAppend(g, r, room);
    var chunk := g[..room];
    assert g + r == chunk + (g[room..] + r);
    TextOfPlain(chunk);
    LastOfSum(st.acc, chunk);
    assert OnLine(st, st.acc + chunk, false) == None;
    RunUnfolds(st, chunk, g[room..] + r);
  }

  predicate HasRoom(st: Loader, f: string) {
    |st.acc| + |f| + 2 < ASCIILINESZ
  }

  /** Cutting a line with backslash-newline: when the text before the cut does not fit the line
      buffer the file is refused; when nothing follows in the file, that text stays pending and is
      lost; in every other case nothing changes. */
  lemma CutOnce(st: Loader, f: string, r: string)
    requires Fits(st)
    requires Without(f, '\n') && Without(f, NUL)
    requires r != "" ==> r[0] != NUL
    ensures Run(st, f + "\\\n" + r) ==
            if !HasRoom(st, f) then None
            else if r == "" then Some(st.(acc := st.acc + f))
            else Run(st, f + r)
  {
    hide Run;
    if !HasRoom(st, f) {
      assert f + "\\\n" + r == (f + "\\") + ("\n" + r);
      OverlongLine(st, f + "\\", "\n" + r);
    } else {
      BreakStep(st, f, r);
      if r == "" {
        RunEmpty(st.(acc := st.acc + f));
      } else {
        PendingIsText(st, f, r);
      }
    }
  }

  /** The same at any place of any file: `before` is what precedes the line that is cut. At the end
      of the file the cut line is lost. */
  lemma CutAnywhere(before: string, f: string, after: string)
    requires before == "" || EndsWith(before, '\n')
    requires Without(f, '\n') && Without(f, NUL)
    requires after != "" ==> after[0] != NUL
    ensures var mid := Run(INIT, before);
            LoadFile(before + (f + "\\\n" + after)) ==
            if mid.None? || !HasRoom(mid.value, f) then None
            else if after == "" then LoadFile(before)
            else LoadFile(before + (f + after))
  {
    hide Run;
    RunAppend(INIT, before, f + "\\\n" + after);
    RunAppend(INIT, before, f + after);
    var mid := Run(INIT, before);
    if mid.Some? {
      CutOnce(mid.value, f, after);
    }
  }

  /** A last line without a newline is one turn of the loop. */
  lemma LastLine(st: Loader, f: string)
    requires Fits(st) && f != "" && |f| < Room(st)
    requires Without(f, '\n') && Without(f, NUL)
    ensures Run(st, f) == OnLine(st, st.acc + f, true)
  {
    hide Run, OnLine;
    assert f + "" == f;
    GetsAppend(f, "", Room(st));
    TextOfPlain(f);
    RunUnfolds(st, f, "");
    var next := OnLine(st, st.acc + f, true);
    if next.Some? {
      RunEmpty(next.value);
    }
  }

  /** The line changes what a load from this state returns. */
  ghost predicate Matters(st: Loader, line: string) {
    && |line| > 1 && !EndsWith(RTrim(line), '\\')
    && match Classify(RTrim(line), st.section)
       case Empty => false
       case Comment => false
       case Section(name) => st.errs == 0 && !(name in st.store && st.store[name] == None)
       case Value(k, v) =>
         st.errs == 0 && !(st.section + ":" + k in st.store && st.store[st.section + ":" + k] == Some(v))
       case Error => st.errs == 0
  }

  lemma MattersIff(st: Loader, line: string)
    ensures var next := OnLine(st, line, true);
            next.Some? && (Finished(next.value) != Finished(st) <==> Matters(st, line))
  {
    hide Classify;
    var text := RTrim(line);
    match Classify(text, st.section)
    case Section(name) =>
      assert st.store[name := None] == st.store <==> name in st.store && st.store[name] == None;
    case Value(k, v) =>
      var q := st.section + ":" + k;
      assert st.store[q := Some(v)] == st.store <==> q in st.store && st.store[q] == Some(v);
    case _ =>
  }

  /** A backslash-newline at the very end of a file changes what it loads to exactly when the line
      it ends, pending text included, matters. */
  lemma CutAtEndIff(before: string, f: string)
    requires before == "" || EndsWith(before, '\n')
    requires Without(f, '\n') && Without(f, NUL)
    requires Run(INIT, before).Some? && HasRoom(Run(INIT, before).value, f)
    ensures var mid := Run(INIT, before).value;
            LoadFile(before + (f + "\\\n")) != LoadFile(before + f) <==> f != "" && Matters(mid, mid.acc + f)
  {
    hide Run, OnLine, Matters;
    var mid := Run(INIT, before).value;
    assert f + "\\\n" + "" == f + "\\\n" && f + "" == f;
    CutAnywhere(before, f, "");
    RunAppend(INIT, before, f);
    if f == "" {
      RunEmpty(mid);
    } else {
      LastLine(mid, f);
      MattersIff(mid, mid.acc + f);
    }
  }

  lemma JudgeLine(text: string, eof: bool)
    requires text != "" && !EndsWith(RTrim(text), '\\')
    ensures Judge(text + "\n", eof) == Complete(RTrim(text))
  {
    hide RTrim;
    var b := RTrimSplits(text);
    assert text + "\n" == RTrim(text) + (b + "\n");
    RTrimDropsBlanks(RTrim(text), b + "\n");
  }

  /** A complete line that fits the buffer is processed whole. */
  lemma RunLine(st: Loader, text: string, rest: string)
    requires st.acc == "" && 0 < |text| && |text| + 1 < ASCIILINESZ
    requires Without(text, '\n') && Without(text, NUL)
    requires !EndsWith(RTrim(text), '\\')
    ensures Run(st, text + "\n" + rest) == Run(Process(st, RTrim(text)), rest)
  {
    hide Run, Gets, Process, Judge, RTrim, HitEof;
    var chunk := text + "\n";
    GetsLine(text, rest, Room(st));
    TextOfPlain(chunk);
    assert st.acc + chunk == chunk && st.(acc := "") == st;
    JudgeLine(text, HitEof(chunk, Room(st)));
    RunUnfolds(st, chunk, rest);
  }

  lemma SectionLine() returns (mid: Loader)
    ensures Run(INIT, "[a]\n") == Some(mid) && mid.acc == "" && mid.errs == 0
    ensures forall q :: q in mid.store ==> |q| <= 1
  {
    hide Run, Classify;
    var line := "[a]";
    assert Trimmed(line) && line == "[" + "a" + "]" + "";
    StripOfTrimmed(line);
    RTrimDropsBlanks(line, "");
    assert line + "" == line && line + "\n" + "" == "[a]\n";
    ClassifySection(line, "", "a", "");
    StripIsShort("a");
    RunLine(INIT, line, "");
    mid := Process(INIT, line);
    RunEmpty(mid);
  }

  /** Such a loss: the entry of `[a]` is gone when its line ends in a continuation. */
  lemma LastLineLost()
    ensures LoadFile("[a]\n" + ("k=v" + "\\\n")) != LoadFile("[a]\n" + "k=v")
  {
    hide Run, Classify;
    var mid := SectionLine();
    var text := "k=v";
    assert Trimmed(text) && text == "k" + "=" + "v";
    StripOfTrimmed(text);
    RTrimDropsBlanks(text, "");
    assert text + "" == text && mid.acc + text == text;
    ClassifyEntry(text, mid.section, "k", "v");
    var q := mid.section + ":" + Lower(Strip("k"));
    assert |q| > 1;
    assert Matters(mid, text);
    CutAtEndIff("[a]\n", "k=v");
  }

  // Whole files of cut lines.

  function Whole(fragments: seq<string>): string {
    if fragments == [] then "" else fragments[0] + Whole(fragments[1..])
  }

  /** The fragments of one logical line, a backslash-newline between neighbours. */
  function Cut(fragments: seq<string>): string {
    if fragments == [] then ""
    else if |fragments| == 1 then fragments[0]
    else fragments[0] + "\\\n" + Cut(fragments[1..])
  }

  ghost predicate Plain(fragments: seq<string>) {
    forall i :: 0 <= i < |fragments| ==> Without(fragments[i], '\n') && Without(fragments[i], NUL)
  }

  /** The line is cut at its very end: its text stops with a backslash-newline. */
  predicate EndsOpen(fragments: seq<string>) {
    |fragments| > 1 && fragments[|fragments| - 1] == ""
  }

  lemma {:induction false} WholeIsPlain(fragments: seq<string>)
    requires Plain(fragments)
    ensures Without(Whole(fragments), '\n') && Without(Whole(fragments), NUL)
  {
    if fragments == [] {
    } else {
      WholeIsPlain(fragments[1..]);
    }
  }

  /** The first two fragments joined. */
  function Merged(fragments: seq<string>): seq<string>
    requires |fragments| > 1
  {
    [fragments[0] + fragments[1]] + fragments[2..]
  }

  lemma CutMerged(fragments: seq<string>)
    requires |fragments| > 1
    ensures Cut(Merged(fragments)) == fragments[0] + Cut(fragments[1..])
    ensures Cut(fragments) == fragments[0] + "\\\n" + Cut(fragments[1..])
  {
    var f, tail := fragments[0], fragments[1..];
    assert Merged(fragments)[1..] == tail[1..] == fragments[2..];
    if |tail| > 1 {
      assert (f + tail[0]) + "\\\n" + Cut(tail[1..]) == f + (tail[0] + "\\\n" + Cut(tail[1..]));
    }
  }

  lemma WholeMerged(fragments: seq<string>)
    requires |fragments| > 1
    ensures Whole(Merged(fragments)) == Whole(fragments) == fragments[0] + Whole(fragments[1..])
  {
    var f, tail := fragments[0], fragments[1..];
    assert Merged(fragments)[1..] == tail[1..] == fragments[2..];
    assert (f + tail[0]) + Whole(tail[1..]) == f + (tail[0] + Whole(tail[1..]));
  }

  lemma CutStart(fragments: seq<string>, rest: string)
    requires Plain(fragments) && (rest != "" ==> rest[0] != NUL)
    ensures Cut(fragments) + rest != "" ==> (Cut(fragments) + rest)[0] != NUL
    ensures fragments != [] ==> (Cut(fragments) == "" <==> fragments == [""])
  {
  }

  lemma PlainParts(fragments: seq<string>)
    requires |fragments| > 1 && Plain(fragments)
    ensures Without(fragments[0], '\n') && Without(fragments[0], NUL)
    ensures Plain(fragments[1..]) && Plain(Merged(fragments))
  {
  }

  /** One cut of a logical line undone. */
  lemma CutStep(st: Loader, fragments: seq<string>, rest: string)
    requires |fragments| > 1 && Plain(fragments)
    requires |st.acc| + |Whole(fragments)| + 2 < ASCIILINESZ
    requires rest != "" ==> rest[0] != NUL
    ensures Run(st, Cut(fragments) + rest) ==
            if fragments[1..] == [""] && rest == "" then Some(st.(acc := st.acc + Whole(fragments)))
            else Run(st, Cut(Merged(fragments)) + rest)
  {
    hide Run, Cut, Plain;
    var f, r := fragments[0], Cut(fragments[1..]) + rest;
    CutMerged(fragments);
    WholeMerged(fragments);
    PlainParts(fragments);
    CutStart(fragments[1..], rest);
    assert Cut(fragments) + rest == f + "\\\n" + r;
    assert Cut(Merged(fragments)) + rest == f + r;
    CutOnce(st, f, r);
    assert fragments[1..] == [""] ==> f + Whole(fragments[1..]) == f;
  }

  /** A logical line cut at any number of places reads as the uncut line, unless the file ends
      behind a cut: then the whole line stays pending. */
  lemma {:induction false} CutLogicalLine(st: Loader, fragments: seq<string>, rest: string)
    requires Plain(fragments)
    requires |st.acc| + |Whole(fragments)| + 2 < ASCIILINESZ
    requires rest != "" ==> rest[0] != NUL
    ensures Run(st, Cut(fragments) + rest) ==
            if EndsOpen(fragments) && rest == "" then Some(st.(acc := st.acc + Whole(fragments)))
            else Run(st, Whole(fragments) + rest)
    decreases |fragments|
  {
    hide Run, Plain;
    if |fragments| == 0 {
    } else if |fragments| == 1 {
      assert fragments[1..] == [];
      assert Whole(fragments) == fragments[0] + "" == fragments[0];
    } else {
      CutStep(st, fragments, rest);
      WholeMerged(fragments);
      if fragments[1..] == [""] && rest == "" {
        assert fragments[1] == "";
      } else {
        PlainParts(fragments);
        CutLogicalLine(st, Merged(fragments), rest);
        assert |fragments| > 2 ==> Merged(fragments)[|fragments| - 2] == fragments[|fragments| - 1];
        assert |fragments| == 2 && fragments[1] == "" ==> fragments[1..] == [""];
      }
    }
  }

  /** An empty line is skipped. */
  lemma RunBlank(st: Loader, rest: string)
    requires st.acc == ""
    ensures Run(st, "\n" + rest) == Run(st, rest)
  {
    hide Run, Gets;
    assert "" + "\n" + rest == "\n" + rest;
    GetsLine("", rest, Room(st));
    TextOfPlain("\n");
    RunUnfolds(st, "\n", rest);
  }

  /** The text of a logical line that fits the buffer and is not continued. */
  ghost predicate Fitting(text: string) {
    && Without(text, '\n') && Without(text, NUL)
    && |text| + 2 < ASCIILINESZ
    && !EndsWith(RTrim(text), '\\')
  }

  lemma EmptyLine(section: string)
    ensures RTrim("") == "" && Classify("", section) == Empty
  {
    StripOfTrimmed("");
  }

  /** Such a line, with its newline, is processed and leaves nothing pending. */
  lemma CompleteLine(st: Loader, text: string, rest: string)
    requires st.acc == "" && Fitting(text)
    ensures Run(st, text + "\n" + rest) == Run(Process(st, RTrim(text)), rest)
    ensures Process(st, RTrim(text)).acc == ""
  {
    hide Run, Classify;
    if text == "" {
      assert text + "\n" + rest == "\n" + rest;
      RunBlank(st, rest);
      EmptyLine(st.section);
    } else {
      RunLine(st, text, rest);
    }
  }

  /** The lines of a file, each ending in a newline. */
  function Lines(texts: seq<string>): string {
    if texts == [] then "" else texts[0] + "\n" + Lines(texts[1..])
  }

  /** What processing the lines one after another does. */
  function ProcessAll(st: Loader, texts: seq<string>): Loader
    decreases |texts|
  {
    if texts == [] then st else ProcessAll(Process(st, RTrim(texts[0])), texts[1..])
  }

  lemma {:induction false} RunLines(st: Loader, texts: seq<string>, rest: string)
    requires st.acc == "" && forall i :: 0 <= i < |texts| ==> Fitting(texts[i])
    ensures ProcessAll(st, texts).acc == ""
    ensures Run(st, Lines(texts) + rest) == Run(ProcessAll(st, texts), rest)
    decreases |texts|
  {
    hide Run, Process, Fitting;
    if texts == [] {
      assert Lines(texts) + rest == rest;
    } else {
      var more := Lines(texts[1..]) + rest;
      assert Lines(texts) + rest == texts[0] + "\n" + more;
      CompleteLine(st, texts[0], more);
      RunLines(Process(st, RTrim(texts[0])), texts[1..], rest);
    }
  }

  // Cut files.

  ghost predicate Cuttable(fragments: seq<string>) {
    Plain(fragments) && Fitting(Whole(fragments))
  }

  function Texts(lines: seq<seq<string>>, cut: bool): seq<string> {
    seq(|lines|, i requires 0 <= i < |lines| => if cut then Cut(lines[i]) else Whole(lines[i]))
  }

  lemma TextsFront(lines: seq<seq<string>>, cut: bool)
    requires lines != []
    ensures Texts(lines, cut) == [if cut then Cut(lines[0]) else Whole(lines[0])] + Texts(lines[1..], cut)
  {
    hide Cut, Whole;
  }

  lemma RunCutLine(st: Loader, fragments: seq<string>, more: string)
    requires st.acc == "" && Cuttable(fragments)
    ensures Run(st, Cut(fragments) + ("\n" + more)) == Run(Process(st, RTrim(Whole(fragments))), more)
    ensures Process(st, RTrim(Whole(fragments))).acc == ""
  {
    hide Run, Process, Cut, Whole, RTrim;
    var text := Whole(fragments);
    CutLogicalLine(st, fragments, "\n" + more);
    assert text + ("\n" + more) == text + "\n" + more;
    CompleteLine(st, text, more);
  }

  lemma {:induction false} RunCutLines(st: Loader, lines: seq<seq<string>>, rest: string)
    requires st.acc == "" && forall i :: 0 <= i < |lines| ==> Cuttable(lines[i])
    ensures ProcessAll(st, Texts(lines, false)).acc == ""
    ensures Run(st, Lines(Texts(lines, true)) + rest) == Run(ProcessAll(st, Texts(lines, false)), rest)
    decreases |lines|
  {
    hide Run, Process, Cuttable, Cut, Whole, RTrim;
    if lines == [] {
      assert Lines(Texts(lines, true)) + rest == rest;
    } else {
      var more := Lines(Texts(lines[1..], true)) + rest;
      TextsFront(lines, true);
      TextsFront(lines, false);
      assert Lines(Texts(lines, true)) + rest == Cut(lines[0]) + ("\n" + more);
      RunCutLine(st, lines[0], more);
      RunCutLines(Process(st, RTrim(Whole(lines[0]))), lines[1..], rest);
    }
  }

  /** Cutting the lines of a file anywhere, any number of times, loads the same dictionary. The last
      line, which may lack its newline, is lost when it is cut at its very end. */
  lemma CutFile(lines: seq<seq<string>>, last: seq<string>)
    requires forall i :: 0 <= i < |lines| ==> Cuttable(lines[i])
    requires Plain(last) && |Whole(last)| + 2 < ASCIILINESZ
    ensures LoadFile(Lines(Texts(lines, true)) + Cut(last)) ==
            LoadFile(Lines(Texts(lines, false)) + if EndsOpen(last) then "" else Whole(last))
  {
    hide Run, ProcessAll, Fitting;
    var tail := if EndsOpen(last) then "" else Whole(last);
    var mid := ProcessAll(INIT, Texts(lines, false));
    RunCutLines(INIT, lines, Cut(last));
    RunLines(INIT, Texts(lines, false), tail);
    CutLogicalLine(mid, last, "");
    assert Cut(last) + "" == Cut(last) && Whole(last) + "" == Whole(last);
    RunEmpty(mid);
  }

  // What a file of complete lines loads to.

  lemma {:induction false} ProcessAllSnoc(st: Loader, texts: seq<string>, text: string)
    ensures ProcessAll(st, texts + [text]) == Process(ProcessAll(st, texts), RTrim(text))
    decreases |texts|
  {
    hide Process;
    if texts == [] {
      assert texts + [text] == [text] && [text][1..] == [];
    } else {
      assert (texts + [text])[1..] == texts[1..] + [text];
      ProcessAllSnoc(Process(st, RTrim(texts[0])), texts[1..], text);
    }
  }

  lemma LastFitting(st: Loader, last: string)
    requires st.acc == "" && Fitting(last)
    ensures Run(st, last) == Some(if |last| <= 1 then st else Process(st, RTrim(last)))
  {
    hide Run, Process;
    assert "" + last == last;
    if last == "" {
      RunEmpty(st);
    } else {
      LastLine(st, last);
      assert st.(acc := "") == st;
    }
  }

  /** A file of fitting lines is its lines processed in turn. The last line may lack its newline, but
      then one character alone is not looked at. */
  lemma LoadsLineByLine(texts: seq<string>, last: string)
    requires forall i :: 0 <= i < |texts| ==> Fitting(texts[i])
    requires Fitting(last)
    ensures LoadFile(Lines(texts) + last) == Finished(ProcessAll(INIT, if |last| <= 1 then texts else texts + [last]))
  {
    hide Run, Process, Fitting, ProcessAll;
    var mid := ProcessAll(INIT, texts);
    RunLines(INIT, texts, last);
    LastFitting(mid, last);
    if |last| > 1 {
      ProcessAllSnoc(INIT, texts, last);
    }
  }

  lemma StripOfRTrim(text: string)
    ensures Strip(RTrim(text)) == Strip(text)
  {
    hide Strip, RTrim;
    var b := RTrimSplits(text);
    var a, c := StripSplits(RTrim(text));
    var m := Strip(RTrim(text));
    assert text == a + m + (c + b);
    StripUnique(text, a, m, c + b);
  }

  /** A line that is neither blank, comment nor section, and has no equals sign or nothing before it. */
  ghost predicate SyntaxError(text: string) {
    var line := Strip(text);
    && line != "" && line[0] != ';' && line[0] != '#'
    && !(line[0] == '[' && line[|line| - 1] == ']')
    && (line[0] == '=' || Without(line, '='))
  }

  lemma {:induction false} ErrorsCounted(st: Loader, texts: seq<string>)
    ensures ProcessAll(st, texts).errs == 0 <==>
            st.errs == 0 && forall i :: 0 <= i < |texts| ==> !SyntaxError(texts[i])
    decreases |texts|
  {
    hide Classify, Strip, RTrim, IsSection, IsComment;
    if texts == [] {
    } else {
      ErrorIff(RTrim(texts[0]), st.section);
      StripOfRTrim(texts[0]);
      ErrorsCounted(Process(st, RTrim(texts[0])), texts[1..]);
      assert texts == [texts[0]] + texts[1..];
    }
  }

  /** Such a file loads exactly when none of its lines is a syntax error. */
  lemma LoadsIff(texts: seq<string>, last: string)
    requires forall i :: 0 <= i < |texts| ==> Fitting(texts[i])
    requires Fitting(last)
    ensures LoadFile(Lines(texts) + last).Some? <==>
            (forall i :: 0 <= i < |texts| ==> !SyntaxError(texts[i])) && (|last| > 1 ==> !SyntaxError(last))
  {
    hide LoadFile, ProcessAll, SyntaxError, Fitting;
    LoadsLineByLine(texts, last);
    var all := if |last| <= 1 then texts else texts + [last];
    ErrorsCounted(INIT, all);
    assert |last| > 1 ==> all[|texts|] == last;
    assert forall i :: 0 <= i < |texts| ==> all[i] == texts[i];
  }

  /** The entry a line writes while `section` is the current section. */
  function Writes(section: string, text: string): Option<(string, Option<string>)> {
    match Classify(RTrim(text), section)
    case Section(name) => Some((name, None))
    case Value(k, v) => Some((section + ":" + k, Some(v)))
    case _ => None
  }

  function SectionAfter(section: string, text: string): string {
    match Classify(RTrim(text), section)
    case Section(name) => name
    case _ => section
  }

  /** What the last line that writes the key `q` gives it. */
  function LastWritten(section: string, texts: seq<string>, q: string): Option<Option<string>>
    decreases |texts|
  {
    if texts == [] then None
    else
      var later := LastWritten(SectionAfter(section, texts[0]), texts[1..], q);
      if later.Some? then later
      else
        match Writes(section, texts[0])
        case None => None
        case Some(w) => if w.0 == q then Some(w.1) else None
  }

  /** The last line that writes a key decides; a key no line writes keeps what it had. */
  lemma {:induction false} LastLineWins(st: Loader, texts: seq<string>, q: string)
    ensures var m, w := ProcessAll(st, texts).store, LastWritten(st.section, texts, q);
            if w.Some? then q in m && m[q] == w.value
            else (q in m <==> q in st.store) && (q in m ==> m[q] == st.store[q])
    decreases |texts|
  {
    hide Classify;
    if texts == [] {
    } else {
      LastLineWins(Process(st, RTrim(texts[0])), texts[1..], q);
    }
  }

  // Lines that do not count.

  lemma {:induction false} LinesAppend(a: seq<string>, b: seq<string>)
    ensures Lines(a + b) == Lines(a) + Lines(b)
  {
    if a == [] {
      assert a + b == b;
    } else {
      assert (a + b)[1..] == a[1..] + b;
      LinesAppend(a[1..], b);
    }
  }

  /** A blank line, or one whose first nonblank is a comment mark. */
  ghost predicate Idle(text: string) {
    var line := Strip(text);
    line == "" || line[0] == ';' || line[0] == '#'
  }

  /** An idle line changes nothing wherever nothing is pending. */
  lemma IdleLine(before: string, text: string, after: string)
    requires before == "" || EndsWith(before, '\n')
    requires Run(INIT, before).Some? ==> Run(INIT, before).value.acc == ""
    requires Fitting(text) && Idle(text)
    ensures LoadFile(before + (text + "\n" + after)) == LoadFile(before + after)
  {
    hide Run, Classify, Fitting, Strip, RTrim;
    RunAppend(INIT, before, text + "\n" + after);
    RunAppend(INIT, before, after);
    if Run(INIT, before).Some? {
      var mid := Run(INIT, before).value;
      CompleteLine(mid, text, after);
      LineKinds(RTrim(text), mid.section);
      StripOfRTrim(text);
    }
  }

  lemma {:induction false} LinesEnd(texts: seq<string>)
    ensures texts == [] || EndsWith(Lines(texts), '\n')
  {
    if texts == [] {
    } else {
      LinesEnd(texts[1..]);
      LastOfSum(texts[0] + "\n", Lines(texts[1..]));
    }
  }

  lemma OneLineOf(text: string)
    ensures Lines([text]) == text + "\n"
  {
    assert [text][1..] == [];
  }

  lemma BeforeIsSettled(a: seq<string>)
    requires forall i :: 0 <= i < |a| ==> Fitting(a[i])
    ensures Lines(a) == "" || EndsWith(Lines(a), '\n')
    ensures Run(INIT, Lines(a)).Some? ==> Run(INIT, Lines(a)).value.acc == ""
  {
    hide Run, Fitting, ProcessAll;
    LinesEnd(a);
    RunLines(INIT, a, "");
    assert Lines(a) + "" == Lines(a);
    RunEmpty(ProcessAll(INIT, a));
  }

  /** Inserting or deleting idle lines anywhere in a file of lines loads the same dictionary. */
  lemma IdleLineAnywhere(a: seq<string>, text: string, b: seq<string>, last: string)
    requires forall i :: 0 <= i < |a| ==> Fitting(a[i])
    requires Fitting(text) && Idle(text)
    ensures LoadFile(Lines(a + [text] + b) + last) == LoadFile(Lines(a + b) + last)
  {
    hide LoadFile, Fitting, Idle, Lines;
    LinesAppend(a + [text], b);
    LinesAppend(a, [text]);
    LinesAppend(a, b);
    OneLineOf(text);
    var after := Lines(b) + last;
    assert Lines(a + [text] + b) + last == Lines(a) + (text + "\n" + after);
    assert Lines(a + b) + last == Lines(a) + after;
    BeforeIsSettled(a);
    IdleLine(Lines(a), text, after);
  }

  lemma MarkFirst(text: string)
    requires text != "" && !IsSpace(text[0])
    ensures Strip(text) != "" && Strip(text)[0] == text[0]
  {
    hide Strip;
    var a, b := StripSplits(text);
    assert a == "";
    assert Strip(text) == "" ==> text == b;
  }

  /** How long a line may be: 1022 characters and its newline. */
  lemma LongestLine(text: string)
    requires text != "" && text[0] == '#' && Without(text, '\n') && Without(text, NUL)
    requires !EndsWith(RTrim(text), '\\')
    ensures LoadFile(text + "\n") == if |text| <= 1022 then Some(map[]) else None
  {
    hide Run, Classify, RTrim;
    assert text + "\n" + "" == text + "\n";
    if |text| <= 1022 {
      RunLine(INIT, text, "");
      MarkFirst(text);
      LineKinds(RTrim(text), "");
      StripOfRTrim(text);
      RunEmpty(INIT);
    } else {
      OverlongLine(INIT, text, "\n");
    }
  }
}
