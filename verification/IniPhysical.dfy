/** The loader one physical line at a time, and how much of a file its lines can bring. */
module IniPhysical {
  import opened CText
  import opened CBuffers
  import opened Dictionary
  import opened IniLine
  import opened IniLoad

  /** A physical line without its newline. */
  ghost predicate Physical(p: string) {
    Without(p, '\n') && Without(p, NUL)
  }

  /** The loop on one physical line; None when it does not fit behind the pending text. */
  function LineStep(st: Loader, p: string): Option<Loader> {
    if |st.acc| + |p| + 1 >= ASCIILINESZ then None else OnLine(st, st.acc + p + "\n", false)
  }

  function After(st: Loader, texts: seq<string>): Option<Loader>
    decreases |texts|
  {
    if texts == [] then Some(st)
    else
      var next := LineStep(st, texts[0]);
      if next.None? then None else After(next.value, texts[1..])
  }

  lemma JudgeNewline(text: string, eof: bool)
    ensures Judge(text + "\n", eof) == Judge(text + "\n", false)
  {
    hide RTrim;
  }

  lemma LineStepRuns(st: Loader, p: string, rest: string)
    requires Fits(st) && Physical(p)
    ensures var next := LineStep(st, p);
            (next.Some? ==> Fits(next.value)) &&
            Run(st, p + "\n" + rest) == if next.None? then None else Run(next.value, rest)
  {
    hide Run, Gets, HitEof, Judge, Outcome;
    if |st.acc| + |p| + 1 >= ASCIILINESZ {
      assert p + "\n" + rest == p + ("\n" + rest);
      OverlongLine(st, p, "\n" + rest);
    } else {
      var chunk := p + "\n";
      GetsLine(p, rest, Room(st));
      TextOfPlain(chunk);
      assert st.acc + chunk == (st.acc + p) + "\n";
      JudgeNewline(st.acc + p, HitEof(chunk, Room(st)));
      RunUnfolds(st, chunk, rest);
    }
  }

  lemma {:induction false} AfterRuns(st: Loader, texts: seq<string>)
    requires Fits(st) && forall i :: 0 <= i < |texts| ==> Physical(texts[i])
    ensures Run(st, Lines(texts)) == After(st, texts)
    decreases |texts|
  {
    hide Run, LineStep;
    if texts == [] {
      RunEmpty(st);
    } else {
      LineStepRuns(st, texts[0], Lines(texts[1..]));
      var next := LineStep(st, texts[0]);
      if next.Some? {
        AfterRuns(next.value, texts[1..]);
      }
    }
  }

  // Counting.

  /** The lines that are not empty. */
  function Filled(texts: seq<string>): nat {
    if texts == [] then 0 else (if texts[0] == "" then 0 else 1) + Filled(texts[1..])
  }

  lemma {:induction false} FilledAppend(a: seq<string>, b: seq<string>)
    ensures Filled(a + b) == Filled(a) + Filled(b)
  {
    if a == [] {
      assert a + b == b;
    } else {
      assert (a + b)[1..] == a[1..] + b;
      FilledAppend(a[1..], b);
    }
  }

  /** The entries stored, and one that may still be pending. */
  function Weight(st: Loader): nat {
    |st.store| + if st.acc == "" then 0 else 1
  }

  lemma StoredOne(m: Store, q: string, v: Option<string>)
    ensures |m[q := v]| == if q in m then |m| else |m| + 1
  {
    if q in m {
      assert m[q := v].Keys == m.Keys;
    } else {
      assert m[q := v].Keys == m.Keys + {q};
    }
    assert |m[q := v].Keys| == |m[q := v]| && |m.Keys| == |m|;
  }

  lemma ProcessWeight(st: Loader, text: string)
    ensures var r := Process(st, text);
            && |r.store| <= |st.store| + 1
            && forall q :: q in st.store ==> q in r.store && (r.store[q] != st.store[q] ==> |r.store| == |st.store|)
  {
    hide Classify;
    match Classify(text, st.section)
    case Section(name) => StoredOne(st.store, name, None);
    case Value(k, v) => StoredOne(st.store, st.section + ":" + k, Some(v));
    case _ =>
  }

  lemma JudgeShort(line: string)
    ensures |line| <= 1 ==> Judge(line, false).Skipped?
    ensures |line| > 1 ==> !Judge(line, false).Skipped?
  {
  }

  /** A line that is not empty brings one entry at most, and an empty line none. A line joined to
      pending text, and one that overwrites an entry, bring nothing. */
  lemma StepWeight(st: Loader, p: string)
    requires LineStep(st, p).Some?
    ensures var r, bound := LineStep(st, p).value, Weight(st) + if p == "" then 0 else 1;
            && Weight(r) <= bound
            && (p != "" && st.acc != "" ==> Weight(r) < bound)
            && forall q :: q in st.store ==> q in r.store && (r.store[q] != st.store[q] ==> Weight(r) < bound)
  {
    hide Process, Judge;
    var line := st.acc + p + "\n";
    JudgeShort(line);
    var v := Judge(line, false);
    if v.Complete? {
      ProcessWeight(st.(acc := ""), v.text);
    }
  }

  /** Every line brings all it can: the run from `st` over `texts` to `end` wastes none. */
  ghost predicate Tight(st: Loader, texts: seq<string>, end: Loader) {
    After(st, texts) == Some(end) && Weight(end) >= Weight(st) + Filled(texts)
  }

  lemma {:induction false} Growth(st: Loader, texts: seq<string>, end: Loader)
    requires After(st, texts) == Some(end)
    ensures Weight(end) <= Weight(st) + Filled(texts)
    decreases |texts|
  {
    hide LineStep, Weight;
    if texts == [] {
    } else {
      StepWeight(st, texts[0]);
      Growth(LineStep(st, texts[0]).value, texts[1..], end);
    }
  }

  lemma TightStep(st: Loader, texts: seq<string>, end: Loader)
    requires texts != [] && Tight(st, texts, end)
    ensures LineStep(st, texts[0]).Some?
    ensures var r := LineStep(st, texts[0]).value;
            && Tight(r, texts[1..], end)
            && (texts[0] != "" ==> st.acc == "")
            && forall q :: q in st.store ==> q in r.store && r.store[q] == st.store[q]
  {
    hide LineStep, Weight;
    StepWeight(st, texts[0]);
    Growth(LineStep(st, texts[0]).value, texts[1..], end);
  }

  /** So what was stored once is never overwritten. */
  lemma {:induction false} TightKeeps(st: Loader, texts: seq<string>, end: Loader, q: string)
    requires Tight(st, texts, end) && q in st.store
    ensures q in end.store && end.store[q] == st.store[q]
    decreases |texts|
  {
    hide LineStep, Weight;
    if texts == [] {
    } else {
      TightStep(st, texts, end);
      TightKeeps(LineStep(st, texts[0]).value, texts[1..], end, q);
    }
  }
}
