/**
 * ItemTip::parse (src/main.cpp:20-112): the section-counting state machine
 * that turns the text a game copies for an item into a structured record.
 *
 * The record is the class ItemTip, whose Parse method runs the loop of the
 * source.  Its specification is the function Run, which folds Step over the
 * lines; the properties of the parser are lemmas about Step and Run.
 */
module Tooltip {
  import opened Wrappers
  import opened Common
  import opened Patterns

  datatype KeyValue = KeyValue(key: string, value: string)

  const Delimiter := "--------"
  const RequirementsHeading := "Requirements:"

  /**
   * The fields of ItemTip.  `ilvl` is None while it has never been written:
   * the source leaves the int uninitialised when there is no item-level line.
   */
  datatype Tip = Tip(
    rarity: string,
    name: string,
    base: string,
    baseStats: seq<KeyValue>,
    requirements: seq<KeyValue>,
    sockets: string,
    ilvl: Option<int>,
    sections: seq<seq<string>>)

  /** A freshly constructed ItemTip. */
  const EmptyTip := Tip("", "", "", [], [], "", None, [])

  /** The loop state of parse: its three counters and the record being filled. */
  datatype State = State(section: nat, line: nat, baseSection: int, tip: Tip)

  /** baseSection is -1 until set, and it is only ever set to the current section. */
  predicate Sane(st: State) {
    -1 <= st.baseSection <= st.section
  }

  function Start(tip: Tip): State {
    State(0, 0, -1, tip)
  }

  /** A parse in progress; `failed` once parse has returned false. */
  datatype Outcome = Outcome(st: State, failed: bool)

  // ------------------------------------------------------------ handlers

  /** Section 0: "Rarity: <word>", then the name, then the base type. */
  function Header(st: State, str: string): (r: Option<State>)
    ensures r.None? <==> st.line == 0 && RarityOf(str).None?
    ensures r.Some? ==> r.value.(tip := st.tip) == st
    ensures r.Some? ==> r.value.tip.(rarity := st.tip.rarity, name := st.tip.name, base := st.tip.base) == st.tip
  {
    if st.line == 0 then
      match RarityOf(str)
      case None => None
      case Some(w) => Some(st.(tip := st.tip.(rarity := Lower(w))))
    else if st.line == 1 then Some(st.(tip := st.tip.(name := StripJunk(str))))
    else if st.line == 2 then Some(st.(tip := st.tip.(base := str)))
    else Some(st)
  }

  /** The entry a section-1 line adds: its key/value split, or the whole line with an empty value. */
  function StatOf(str: string): (kv: KeyValue)
    ensures str == kv.key + ": " + kv.value || kv == KeyValue(str, "")
  {
    match KeyValueOf(str)
    case Some((k, v)) => KeyValue(k, v)
    case None => KeyValue(str, "")
  }

  /** Section 1: base stats. */
  function BaseStat(st: State, str: string): (r: State)
    ensures |r.tip.baseStats| == |st.tip.baseStats| + 1
    ensures r.tip.baseStats[..|st.tip.baseStats|] == st.tip.baseStats
    ensures r.(tip := r.tip.(baseStats := st.tip.baseStats)) == st
  {
    st.(tip := st.tip.(baseStats := st.tip.baseStats + [StatOf(str)]))
  }

  /**
   * The default branch: fix baseSection on first use, grow `sections` up to
   * the current index and append the line there.
   */
  function Describe(st: State, str: string): (r: State)
    requires Sane(st)
    ensures Sane(r) && r.section == st.section
    ensures st.baseSection >= 0 ==> r.baseSection == st.baseSection
    ensures st.baseSection < 0 ==> r.baseSection == st.section
    ensures var idx := st.section - r.baseSection;
      0 <= idx < |r.tip.sections| &&
      r.tip.sections[idx] == (if idx < |st.tip.sections| then st.tip.sections[idx] else []) + [str]
    ensures r == st.(baseSection := r.baseSection, tip := st.tip.(sections := r.tip.sections))
    ensures var idx := st.section - r.baseSection;
      |r.tip.sections| == if idx < |st.tip.sections| then |st.tip.sections| else idx + 1
    ensures var idx := st.section - r.baseSection;
      forall i :: 0 <= i < |r.tip.sections| && i != idx ==>
        r.tip.sections[i] == (if i < |st.tip.sections| then st.tip.sections[i] else [])
  {
    var base := if st.baseSection < 0 then st.section as int else st.baseSection;
    var idx := st.section - base;
    var grown :=
      if idx >= |st.tip.sections| then st.tip.sections + seq(idx + 1 - |st.tip.sections|, _ => [])
      else st.tip.sections;
    st.(baseSection := base, tip := st.tip.(sections := grown[idx := grown[idx] + [str]]))
  }

  /** Section 4: the item level, else fall through to the default branch. */
  function Level(st: State, str: string): (r: State)
    requires Sane(st)
    ensures Sane(r) && r.section >= st.section
    ensures LevelOf(str).Some? ==> r == st.(tip := st.tip.(ilvl := LevelOf(str)))
    ensures LevelOf(str).None? ==> r.section > st.section
  {
    match LevelOf(str)
    case Some(v) => st.(tip := st.tip.(ilvl := Some(v)))
    case None => Describe(st.(section := st.section + 1), str)
  }

  /** Section 3: the sockets line, else fall through to section 4. */
  function Sockets(st: State, str: string): (r: State)
    requires Sane(st)
    ensures Sane(r) && r.section >= st.section
    ensures SocketsOf(str).Some? ==> r == st.(tip := st.tip.(sockets := SocketsOf(str).value))
    ensures SocketsOf(str).None? ==> r.section > st.section
  {
    match SocketsOf(str)
    case Some(s) => st.(tip := st.tip.(sockets := s))
    case None => Level(st.(section := st.section + 1), str)
  }

  /**
   * Section 2: the heading, then key/value lines that must match.  When the
   * first line is not the heading it falls through to section 3.  The
   * `return false` for a line-0 non-heading (main.cpp:79-81) is unreachable:
   * that case has already fallen through.
   */
  function Requirement(st: State, str: string): (r: Option<State>)
    requires Sane(st)
    ensures r.Some? ==> Sane(r.value) && r.value.section >= st.section
    ensures st.line == 0 && str == RequirementsHeading ==> r == Some(st)
    ensures st.line > 0 ==> (r.None? <==> KeyValueOf(str).None?)
    ensures st.line > 0 && KeyValueOf(str).Some? ==>
      r == Some(st.(tip := st.tip.(requirements := st.tip.requirements +
        [KeyValue(KeyValueOf(str).value.0, KeyValueOf(str).value.1)])))
  {
    if str == RequirementsHeading || st.line > 0 then
      if st.line > 0 then
        match KeyValueOf(str)
        case None => None
        case Some((k, v)) => Some(st.(tip := st.tip.(requirements := st.tip.requirements + [KeyValue(k, v)])))
      else Some(st)
    else Some(Sockets(st.(section := st.section + 1), str))
  }

  /** The switch on `section` for a content line. */
  function Handle(st: State, str: string): (r: Option<State>)
    requires Sane(st)
    ensures r.Some? ==> Sane(r.value) && r.value.section >= st.section
  {
    if st.section == 0 then Header(st, str)
    else if st.section == 1 then Some(BaseStat(st, str))
    else if st.section == 2 then Requirement(st, str)
    else if st.section == 3 then Some(Sockets(st, str))
    else if st.section == 4 then Some(Level(st, str))
    else Some(Describe(st, str))
  }

  /** One iteration of the loop of parse; None when parse returns false. */
  function Step(st: State, raw: string): (r: Option<State>)
    requires Sane(st)
    ensures r.Some? ==> Sane(r.value) && r.value.section >= st.section
  {
    var str := Trimmed(raw);
    if str == "" then Some(st)
    else if str == Delimiter then Some(st.(section := st.section + 1, line := 0))
    else
      match Handle(st, str)
      case None => None
      case Some(s) => Some(s.(line := s.line + 1))
  }

  function Next(o: Outcome, raw: string): (r: Outcome)
    requires Sane(o.st)
    ensures Sane(r.st)
  {
    if o.failed then o
    else
      match Step(o.st, raw)
      case None => Outcome(o.st, true)
      case Some(s) => Outcome(s, false)
  }

  /** The loop of parse over `lines`, from `o`. */
  function Run(o: Outcome, lines: seq<string>): (r: Outcome)
    requires Sane(o.st)
    ensures Sane(r.st)
    decreases |lines|
  {
    if lines == [] then o else Run(Next(o, lines[0]), lines[1..])
  }

  /** The value parse returns once the loop has finished (main.cpp:111). */
  predicate Accepted(o: Outcome) {
    !o.failed && o.st.tip.rarity != "" && o.st.tip.name != ""
  }

  /** parse(data) on a record holding `tip`: the loop runs over the '\n'-separated lines. */
  function Parsed(tip: Tip, data: string): (o: Outcome)
    ensures Sane(o.st)
  {
    Run(Outcome(Start(tip), false), Pieces(data, '\n'))
  }

  // ------------------------------------------------------------ the class

  class ItemTip {
    var rarity: string
    var name: string
    var base: string
    var baseStats: seq<KeyValue>
    var requirements: seq<KeyValue>
    var sockets: string
    var ilvl: Option<int>
    var sections: seq<seq<string>>

    function Fields(): Tip
      reads this
    {
      Tip(rarity, name, base, baseStats, requirements, sockets, ilvl, sections)
    }

    /** ItemTip(): empty strings and vectors; ilvl is never written. */
    constructor ()
      ensures Fields() == EmptyTip
    {
      rarity, name, base := "", "", "";
      baseStats, requirements := [], [];
      sockets, ilvl, sections := "", None, [];
    }

    /**
     * ItemTip::parse.  The record is updated in place as the lines are read;
     * on an early `return false` it keeps what was filled in before.
     */
    method Parse(data: string) returns (ok: bool)
      modifies this
      ensures Fields() == Parsed(old(Fields()), data).st.tip
      ensures ok == Accepted(Parsed(old(Fields()), data))
    {
      var lines := Split(data, '\n');
      ghost var first := Outcome(Start(Fields()), false);
      var section: nat, line: nat, baseSection: int := 0, 0, -1;
      var k := 0;
      while k < |lines|
        invariant k <= |lines|
        invariant -1 <= baseSection <= section
        invariant Run(first, lines) == Run(Outcome(State(section, line, baseSection, Fields()), false), lines[k..])
      {
        ghost var before := State(section, line, baseSection, Fields());
        assert Run(first, lines) == Run(Next(Outcome(before, false), lines[k]), lines[k + 1..]) by {
          assert lines[k..][1..] == lines[k + 1..];
        }
        var handled;
        handled, section, line, baseSection := ParseLine(lines[k], section, line, baseSection);
        if !handled {
          FailedStays(Outcome(before, true), lines[k + 1..]);
          return false;
        }
        k := k + 1;
      }
      ok := !(rarity == "" || name == "");
    }

    /** One iteration of the loop of parse: blank lines, delimiters and content lines. */
    method ParseLine(raw: string, section: nat, line: nat, baseSection: int)
      returns (ok: bool, section': nat, line': nat, baseSection': int)
      requires -1 <= baseSection <= section
      modifies this
      ensures -1 <= baseSection' <= section'
      ensures ok ==> Step(State(section, line, baseSection, old(Fields())), raw)
                     == Some(State(section', line', baseSection', Fields()))
      ensures !ok ==> Step(State(section, line, baseSection, old(Fields())), raw).None?
      ensures !ok ==> Fields() == old(Fields())
    {
      ok, section', line', baseSection' := true, section, line, baseSection;
      var str := Trim(raw);
      if str == "" {
      } else if str == Delimiter {
        section', line' := section + 1, 0;
      } else {
        ok, section', baseSection' := HandleLine(str, section, line, baseSection);
        line' := line + 1;
      }
    }

    /**
     * The switch of parse for one trimmed content line (main.cpp:52-107),
     * without the `++line` that follows it; `ok` is false where parse
     * returns false, and then nothing has been written.
     */
    method HandleLine(str: string, section: nat, line: nat, baseSection: int)
      returns (ok: bool, section': nat, baseSection': int)
      requires -1 <= baseSection <= section
      modifies this
      ensures -1 <= baseSection' <= section'
      ensures ok ==> Handle(State(section, line, baseSection, old(Fields())), str)
                     == Some(State(section', line, baseSection', Fields()))
      ensures !ok ==> Handle(State(section, line, baseSection, old(Fields())), str).None?
      ensures !ok ==> Fields() == old(Fields())
    {
      ok, section', baseSection' := true, section, baseSection;
      if section == 0 {
        if line == 0 {
          var w := RarityOf(str);
          if w.None? {
            return false, section, baseSection;
          }
          rarity := Lower(w.value);
        } else if line == 1 {
          name := StripJunk(str);
        } else if line == 2 {
          base := str;
        }
      } else if section == 1 {
        baseStats := baseStats + [StatOf(str)];
      } else if section == 2 && (str == RequirementsHeading || line > 0) {
        if line > 0 {
          var kv := KeyValueOf(str);
          if kv.None? {
            return false, section, baseSection;
          }
          requirements := requirements + [KeyValue(kv.value.0, kv.value.1)];
        }
      } else {
        var from := if section == 2 then section + 1 else section;
        section', baseSection' := SoftLine(str, from, line, baseSection);
      }
    }

    /**
     * Sections 3, 4 and the default branch, entered at `section` (directly
     * or by falling through): each soft section that does not recognise the
     * line advances `section` and hands the line on.
     */
    method SoftLine(str: string, section: nat, line: nat, baseSection: int)
      returns (section': nat, baseSection': int)
      requires -1 <= baseSection <= section && section >= 3
      modifies this
      ensures -1 <= baseSection' <= section'
      ensures State(section', line, baseSection', Fields()) ==
        var st := State(section, line, baseSection, old(Fields()));
        if section == 3 then Sockets(st, str) else if section == 4 then Level(st, str) else Describe(st, str)
    {
      section', baseSection' := section, baseSection;
      if section' == 3 {
        var s := SocketsOf(str);
        if s.Some? {
          sockets := s.value;
          return;
        }
        section' := section' + 1;
      }
      if section' == 4 {
        var v := LevelOf(str);
        if v.Some? {
          ilvl := Some(v.value);
          return;
        }
        section' := section' + 1;
      }
      if baseSection' < 0 {
        baseSection' := section';
      }
      var idx := section' - baseSection';
      if idx >= |sections| {
        sections := sections + seq(idx + 1 - |sections|, _ => []);
      }
      sections := sections[idx := sections[idx] + [str]];
    }
  }

  // -------------------------------------------------------------- lemmas

  /** Once parse has returned false nothing further happens. */
  lemma {:induction false} FailedStays(o: Outcome, lines: seq<string>)
    requires Sane(o.st) && o.failed
    ensures Run(o, lines) == o
    decreases |lines|
  {
    if lines != [] {
      FailedStays(Next(o, lines[0]), lines[1..]);
    }
  }

  /** Running over a + b is running over a, then over b. */
  lemma {:induction false} RunAppend(o: Outcome, a: seq<string>, b: seq<string>)
    requires Sane(o.st)
    ensures Run(o, a + b) == Run(Run(o, a), b)
    decreases |a|
  {
    if a == [] {
      assert a + b == b;
    } else {
      assert (a + b)[0] == a[0];
      assert (a + b)[1..] == a[1..] + b;
      RunAppend(Next(o, a[0]), a[1..], b);
    }
  }

  /** Lines that trim to nothing leave the state alone. */
  lemma {:induction false} BlanksSkipped(o: Outcome, blanks: seq<string>)
    requires Sane(o.st)
    requires forall i :: 0 <= i < |blanks| ==> Trimmed(blanks[i]) == ""
    ensures Run(o, blanks) == o
    decreases |blanks|
  {
    if blanks != [] {
      BlanksSkipped(o, blanks[1..]);
    }
  }

  /** Outside line 0 of section 0 no step writes `rarity`, and the position never returns there. */
  lemma {:induction false} RarityFrozen(o: Outcome, lines: seq<string>)
    requires Sane(o.st)
    requires o.st.section > 0 || o.st.line > 0
    ensures Run(o, lines).st.tip.rarity == o.st.tip.rarity
    ensures Run(o, lines).st.section > 0 || Run(o, lines).st.line > 0
    decreases |lines|
  {
    if lines != [] {
      var n := Next(o, lines[0]);
      assert n.st.tip.rarity == o.st.tip.rarity;
      RarityFrozen(n, lines[1..]);
    }
  }

  /**
   * The first content line decides the rarity: a delimiter or a line not of
   * the form `Rarity: <word>` makes parse return false, and an accepted
   * parse has the captured word, lower-cased, as its rarity.
   */
  lemma HeaderDecides(blanks: seq<string>, first: string, rest: seq<string>)
    requires forall i :: 0 <= i < |blanks| ==> Trimmed(blanks[i]) == ""
    requires Trimmed(first) != ""
    ensures Trimmed(first) == Delimiter ==> !Accepted(Run(Outcome(Start(EmptyTip), false), blanks + [first] + rest))
    ensures RarityOf(Trimmed(first)).None? ==> !Accepted(Run(Outcome(Start(EmptyTip), false), blanks + [first] + rest))
    ensures RarityOf(Trimmed(first)).Some? && Accepted(Run(Outcome(Start(EmptyTip), false), blanks + [first] + rest)) ==>
      Run(Outcome(Start(EmptyTip), false), blanks + [first] + rest).st.tip.rarity == Lower(RarityOf(Trimmed(first)).value)
  {
    var o := Outcome(Start(EmptyTip), false);
    RunAppend(o, blanks, [first] + rest);
    assert blanks + [first] + rest == blanks + ([first] + rest);
    BlanksSkipped(o, blanks);
    var n := Next(o, first);
    assert Run(o, [first] + rest) == Run(n, rest) by {
      assert ([first] + rest)[1..] == rest;
    }
    FirstLine(first);
    if n.failed {
      FailedStays(n, rest);
    } else {
      RarityFrozen(n, rest);
    }
  }

  /** What the first content line of a fresh parse does: a delimiter moves on, a header line is read. */
  lemma FirstLine(first: string)
    requires Trimmed(first) != ""
    ensures var n := Next(Outcome(Start(EmptyTip), false), first);
      (Trimmed(first) == Delimiter ==> !n.failed && n.st.tip.rarity == "" && n.st.section == 1) &&
      (Trimmed(first) != Delimiter && RarityOf(Trimmed(first)).None? ==> n.failed) &&
      (Trimmed(first) != Delimiter && RarityOf(Trimmed(first)).Some? ==>
         !n.failed && n.st.tip.rarity == Lower(RarityOf(Trimmed(first)).value) && n.st.line == 1)
  {
  }

  /**
   * In section 2, the heading changes nothing but the line counter, and
   * every later `key: value` line appends that pair to the requirements.
   */
  lemma RequirementLine(st: State, raw: string)
    requires Sane(st) && st.section == 2
    requires Trimmed(raw) != "" && Trimmed(raw) != Delimiter
    ensures st.line == 0 && Trimmed(raw) == RequirementsHeading ==>
      Step(st, raw) == Some(st.(line := 1))
    ensures st.line > 0 && KeyValueOf(Trimmed(raw)).Some? ==>
      Step(st, raw) == Some(st.(line := st.line + 1, tip := st.tip.(requirements := st.tip.requirements +
        [KeyValue(KeyValueOf(Trimmed(raw)).value.0, KeyValueOf(Trimmed(raw)).value.1)])))
  {
  }

  /** Every content line of section 1 adds exactly one base stat and cannot fail. */
  lemma BaseStatLine(st: State, raw: string)
    requires Sane(st) && st.section == 1
    requires Trimmed(raw) != "" && Trimmed(raw) != Delimiter
    ensures Step(st, raw).Some?
    ensures Step(st, raw).value.tip.baseStats == st.tip.baseStats + [StatOf(Trimmed(raw))]
    ensures KeyValueOf(Trimmed(raw)).None? ==> StatOf(Trimmed(raw)) == KeyValue(Trimmed(raw), "")
    ensures KeyValueOf(Trimmed(raw)).Some? ==>
      Trimmed(raw) == StatOf(Trimmed(raw)).key + ": " + StatOf(Trimmed(raw)).value
  {
  }

  /**
   * A first section-2 line other than the heading is retried as the
   * sockets line, then as the item level, then as description, and never
   * makes parse fail.
   */
  lemma RequirementsFallThrough(st: State, raw: string)
    requires Sane(st) && st.section == 2 && st.line == 0
    requires Trimmed(raw) != "" && Trimmed(raw) != Delimiter && Trimmed(raw) != RequirementsHeading
    ensures Step(st, raw).Some?
    ensures SocketsOf(Trimmed(raw)).Some? ==>
      Step(st, raw).value.section == 3 && Step(st, raw).value.tip.sockets == SocketsOf(Trimmed(raw)).value
    ensures SocketsOf(Trimmed(raw)).None? && LevelOf(Trimmed(raw)).Some? ==>
      Step(st, raw).value.section == 4 && Step(st, raw).value.tip.ilvl == LevelOf(Trimmed(raw))
    ensures SocketsOf(Trimmed(raw)).None? && LevelOf(Trimmed(raw)).None? ==>
      Step(st, raw).value.section == 5 && Trimmed(raw) in Step(st, raw).value.tip.sections[5 - Step(st, raw).value.baseSection]
  {
  }

  /** After the heading, a requirement line without the key/value shape makes parse return false. */
  lemma RequirementMustBeKeyValue(o: Outcome, raw: string, rest: seq<string>)
    requires Sane(o.st) && !o.failed && o.st.section == 2 && o.st.line > 0
    requires Trimmed(raw) != "" && Trimmed(raw) != Delimiter && KeyValueOf(Trimmed(raw)).None?
    ensures Step(o.st, raw).None?
    ensures !Accepted(Run(o, [raw] + rest))
  {
    assert ([raw] + rest)[1..] == rest;
    FailedStays(Outcome(o.st, true), rest);
  }

  /** A blank line changes nothing; a delimiter only advances the section and resets the line counter. */
  lemma BlankAndDelimiterLines(st: State, raw: string)
    requires Sane(st)
    ensures Trimmed(raw) == "" ==> Step(st, raw) == Some(st)
    ensures Trimmed(raw) == Delimiter ==> Step(st, raw) == Some(st.(section := st.section + 1, line := 0))
  {
  }

  /** What a description line may be: never blank, never a delimiter, already trimmed. */
  predicate Stored(line: string) {
    line != "" && line != Delimiter && Trimmed(line) == line
  }

  /** All description lines, section after section. */
  function Flat(ss: seq<seq<string>>): seq<string> {
    if ss == [] then [] else Flat(ss[..|ss| - 1]) + ss[|ss| - 1]
  }

  /**
   * The shape of `sections` that parse maintains from a fresh record: empty
   * until baseSection is fixed, then at most one block per section passed
   * since, the last block non-empty, and only stored lines in it.
   */
  predicate SectionsWellFormed(st: State) {
    var ss := st.tip.sections;
    && Sane(st)
    && (st.baseSection < 0 ==> ss == [])
    && (st.baseSection >= 0 ==> 1 <= |ss| <= st.section - st.baseSection + 1)
    && (ss != [] ==> ss[|ss| - 1] != [])
    && (forall i, j :: 0 <= i < |ss| && 0 <= j < |ss[i]| ==> Stored(ss[i][j]))
  }

  lemma FlatAppendLast(ss: seq<seq<string>>, x: string)
    requires ss != []
    ensures Flat(ss[|ss| - 1 := ss[|ss| - 1] + [x]]) == Flat(ss) + [x]
  {
    var n := |ss| - 1;
    assert ss[n := ss[n] + [x]][..n] == ss[..n];
  }

  lemma {:induction false} FlatAppendEmpties(ss: seq<seq<string>>, m: nat)
    ensures Flat(ss + seq(m, _ => [])) == Flat(ss)
    decreases m
  {
    if m > 0 {
      var es: seq<seq<string>> := seq(m, _ => []);
      assert (ss + es)[..|ss| + m - 1] == ss + seq(m - 1, _ => []);
      FlatAppendEmpties(ss, m - 1);
    } else {
      assert ss + seq(m, _ => []) == ss;
    }
  }

  /**
   * A description line is appended after every line already stored (input
   * order), the shape of `sections` is kept, and no other step touches
   * `sections`.
   */
  lemma DescribeAppends(st: State, str: string)
    requires SectionsWellFormed(st) && Stored(str)
    ensures SectionsWellFormed(Describe(st, str))
    ensures Flat(Describe(st, str).tip.sections) == Flat(st.tip.sections) + [str]
  {
    DescribeFlat(st, str);
    DescribeKeepsShape(st, str);
  }

  lemma DescribeFlat(st: State, str: string)
    requires SectionsWellFormed(st)
    ensures Flat(Describe(st, str).tip.sections) == Flat(st.tip.sections) + [str]
  {
    var r := Describe(st, str);
    var ss := st.tip.sections;
    var idx := st.section - r.baseSection;
    var grown := if idx >= |ss| then ss + seq(idx + 1 - |ss|, _ => []) else ss;
    assert r.tip.sections == grown[idx := grown[idx] + [str]];
    GrownFlat(ss, idx, str);
  }

  /** Padding with empty blocks up to `idx` and appending to block `idx` adds one line at the end. */
  lemma GrownFlat(ss: seq<seq<string>>, idx: nat, str: string)
    requires |ss| - 1 <= idx
    ensures var grown := if idx >= |ss| then ss + seq(idx + 1 - |ss|, _ => []) else ss;
      Flat(grown[idx := grown[idx] + [str]]) == Flat(ss) + [str]
  {
    if idx >= |ss| {
      var grown := ss + seq(idx + 1 - |ss|, _ => []);
      FlatAppendEmpties(ss, idx + 1 - |ss|);
      FlatAppendLast(grown, str);
    } else {
      FlatAppendLast(ss, str);
    }
  }

  lemma DescribeKeepsShape(st: State, str: string)
    requires SectionsWellFormed(st) && Stored(str)
    ensures SectionsWellFormed(Describe(st, str))
  {
    var ss := st.tip.sections;
    var base := if st.baseSection < 0 then st.section as int else st.baseSection;
    var idx := st.section - base;
    var grown :=
      if idx >= |ss| then ss + seq(idx + 1 - |ss|, _ => []) else ss;
    var rs := Describe(st, str).tip.sections;
    assert rs == grown[idx := grown[idx] + [str]];
    assert |rs| == idx + 1;
    forall i, j | 0 <= i < |rs| && 0 <= j < |rs[i]| ensures Stored(rs[i][j]) {
      if i < idx {
        assert rs[i] == grown[i];
        if i < |ss| { assert grown[i] == ss[i]; }
      } else if j < |grown[idx]| {
        assert rs[i][j] == grown[idx][j];
        if idx < |ss| { assert grown[idx] == ss[idx]; }
      }
    }
  }

  /**
   * A content line either leaves `sections` and `baseSection` alone, or is
   * a description line: handled by the default branch at the section the
   * fall-through has reached.
   */
  lemma HandleShape(st: State, str: string)
    requires Sane(st) && Handle(st, str).Some?
    ensures var r := Handle(st, str).value;
      (r.tip.sections == st.tip.sections && r.baseSection == st.baseSection) ||
      r == Describe(st.(section := r.section), str)
  {
    var r := Handle(st, str).value;
    if st.section == 2 && !(str == RequirementsHeading || st.line > 0) {
      assert r == Sockets(st.(section := 3), str);
      SoftShape(st.(section := 3), str);
    } else if st.section == 3 || st.section == 4 {
      SoftShape(st, str);
    }
  }

  lemma SoftShape(st: State, str: string)
    requires Sane(st) && (st.section == 3 || st.section == 4)
    ensures var r := if st.section == 3 then Sockets(st, str) else Level(st, str);
      (r.tip.sections == st.tip.sections && r.baseSection == st.baseSection) ||
      r == Describe(st.(section := r.section), str)
  {
  }

  lemma StepKeepsSections(st: State, raw: string)
    requires SectionsWellFormed(st) && Step(st, raw).Some?
    ensures SectionsWellFormed(Step(st, raw).value)
    ensures var f := Flat(Step(st, raw).value.tip.sections);
      f == Flat(st.tip.sections) || f == Flat(st.tip.sections) + [Trimmed(raw)]
  {
    var str := Trimmed(raw);
    if str == "" || str == Delimiter {
      WellFormedLater(st, Step(st, raw).value);
    } else {
      var r := Handle(st, str).value;
      assert Step(st, raw).value == r.(line := r.line + 1);
      TrimIdempotent(raw);
      ContentKeepsSections(st, str);
    }
  }

  /** A content line keeps `sections` well formed and either keeps the stored lines or appends it. */
  lemma ContentKeepsSections(st: State, str: string)
    requires SectionsWellFormed(st) && Stored(str) && Handle(st, str).Some?
    ensures var r := Handle(st, str).value;
      SectionsWellFormed(r.(line := r.line + 1)) &&
      (Flat(r.tip.sections) == Flat(st.tip.sections) || Flat(r.tip.sections) == Flat(st.tip.sections) + [str])
  {
    var r := Handle(st, str).value;
    var next := r.(line := r.line + 1);
    HandleShape(st, str);
    if r != Describe(st.(section := r.section), str) {
      WellFormedLater(st, next);
    } else {
      DescribeAppends(st.(section := r.section), str);
      WellFormedLater(r, next);
    }
  }

  /** The shape of `sections` survives moving on to a later section or line. */
  lemma WellFormedLater(a: State, b: State)
    requires SectionsWellFormed(a) && Sane(b)
    requires b.tip.sections == a.tip.sections && b.baseSection == a.baseSection && b.section >= a.section
    ensures SectionsWellFormed(b)
  {
  }

  /**
   * From a fresh record, whatever the input: description blocks hold only
   * trimmed, non-blank, non-delimiter lines, the last block is never empty,
   * and the lines already stored are never changed or reordered.
   */
  lemma {:induction false} RunKeepsSections(o: Outcome, lines: seq<string>)
    requires SectionsWellFormed(o.st)
    ensures SectionsWellFormed(Run(o, lines).st)
    ensures Flat(o.st.tip.sections) <= Flat(Run(o, lines).st.tip.sections)
    decreases |lines|
  {
    if lines != [] {
      var n := Next(o, lines[0]);
      if !o.failed && Step(o.st, lines[0]).Some? {
        StepKeepsSections(o.st, lines[0]);
      }
      RunKeepsSections(n, lines[1..]);
    }
  }

  /** A fresh record starts well formed, so every parse keeps the shape above. */
  lemma ParsedSectionsWellFormed(data: string)
    ensures SectionsWellFormed(Parsed(EmptyTip, data).st)
    ensures var ss := Parsed(EmptyTip, data).st.tip.sections; ss != [] ==> ss[|ss| - 1] != []
  {
    RunKeepsSections(Outcome(Start(EmptyTip), false), Pieces(data, '\n'));
  }

  /**
   * A text made of the three header lines alone parses into exactly those
   * three fields and nothing else; it is accepted iff the name is non-empty
   * once the decorative tag is stripped.
   */
  lemma HeaderOnly(r: string, n: string, b: string)
    requires RarityOf(Trimmed(r)).Some?
    requires Trimmed(n) != "" && Trimmed(n) != Delimiter
    requires Trimmed(b) != "" && Trimmed(b) != Delimiter
    ensures Run(Outcome(Start(EmptyTip), false), [r, n, b]) ==
      Outcome(State(0, 3, -1, EmptyTip.(rarity := Lower(RarityOf(Trimmed(r)).value),
                                        name := StripJunk(Trimmed(n)),
                                        base := Trimmed(b))), false)
    ensures Accepted(Run(Outcome(Start(EmptyTip), false), [r, n, b])) <==> StripJunk(Trimmed(n)) != ""
  {
    var o0 := Outcome(Start(EmptyTip), false);
    var o1 := Next(o0, r);
    var o2 := Next(o1, n);
    var o3 := Next(o2, b);
    assert [r, n, b][1..] == [n, b];
    assert [n, b][1..] == [b];
    assert Run(o0, [r, n, b]) == Run(o1, [n, b]) == Run(o2, [b]) == o3;
  }
}
