/**
 * ShrineData (src/main.cpp:114-228): the catalogue of effects built from the
 * decoded knowledge-base tree, and the classification of a parsed tip's
 * description lines against it.
 *
 * Fetching and decoding the tree (main.cpp:130-134) is not modelled: Update
 * receives its outcome as a Fetch value.  The regex
 * engine is the parameter `matches(pattern, line)`; a pattern is the string
 * makeRe produced, compiled case-insensitively by the engine.
 */
module Shrines {
  import opened Wrappers
  import opened Common
  import opened Patterns
  import Json
  import Tooltip

  /**
   * What the request and json::parse in update (main.cpp:130-134) produced.
   * json::parse decodes into `effects` itself, so a failed decode leaves
   * whatever tree json.h had written so far: `partial`, which this model
   * does not constrain.
   */
  datatype Fetch =
    | FetchFailed
    | DecodeFailed(partial: Json.Value)
    | Decoded(tree: Json.Value)

  /** ShrineData::Matcher: the rewritten pattern, the effect's index and its requirement. */
  datatype Matcher = Matcher(pattern: string, index: nat, req: string)

  // ------------------------------------------------------ matcher building

  /** The matcher of one pattern element: a bare template, or a [template, requirement] pair. */
  function MatcherFor(reg: Json.Value, i: nat): (m: Matcher)
    ensures m.index == i
  {
    if reg.Array? then Matcher(MakeRe(Json.GetString(Json.At(reg, 0))), i, Json.GetString(Json.At(reg, 1)))
    else Matcher(MakeRe(Json.GetString(reg)), i, "")
  }

  /**
   * What entry i of the tree contributes: one matcher per element from
   * position 2 on when it is an array, nothing otherwise.
   */
  function EffectMatchers(e: Json.Value, i: nat): seq<Matcher> {
    if e.Array? && |e.items| > 2 then seq(|e.items| - 2, t requires 0 <= t < |e.items| - 2 => MatcherFor(e.items[t + 2], i))
    else []
  }

  /** The contribution of every entry of the tree, entry by entry. */
  function Blocks(effects: Json.Value): (bs: seq<seq<Matcher>>)
    ensures |bs| == Json.Length(effects)
  {
    seq(Json.Length(effects), k requires 0 <= k < Json.Length(effects) => EffectMatchers(effects.items[k], k))
  }

  /** The blocks laid end to end. */
  function Concat(bs: seq<seq<Matcher>>): seq<Matcher> {
    if bs == [] then [] else Concat(bs[..|bs| - 1]) + bs[|bs| - 1]
  }

  /** The matcher list the building loop of update leaves behind. */
  function MatchersOf(effects: Json.Value): (r: seq<Matcher>)
    ensures forall t :: 0 <= t < |r| ==> r[t].index < Json.Length(effects)
  {
    BlocksIndexed(effects);
    ConcatOrdered(Blocks(effects));
    Concat(Blocks(effects))
  }

  /** Block k holds only matchers tagged k. */
  predicate IndexedBlocks(bs: seq<seq<Matcher>>) {
    forall k, t :: 0 <= k < |bs| && 0 <= t < |bs[k]| ==> bs[k][t].index == k
  }

  lemma BlocksIndexed(effects: Json.Value)
    ensures IndexedBlocks(Blocks(effects))
  {
    var bs: seq<seq<Matcher>> := Blocks(effects);
    forall k: nat, t: nat | k < |bs| && t < |bs[k]|
      ensures bs[k][t].index == k
    {
      assert bs[k] == EffectMatchers(effects.items[k], k);
      assert bs[k][t] == MatcherFor(effects.items[k].items[t + 2], k);
    }
  }

  /** The matchers of one effect: those of the whole list that carry its index, in list order. */
  function WithIndex(ms: seq<Matcher>, i: nat): seq<Matcher> {
    if ms == [] then []
    else WithIndex(ms[..|ms| - 1], i) + (if ms[|ms| - 1].index == i then [ms[|ms| - 1]] else [])
  }

  lemma {:induction false} WithIndexAppend(a: seq<Matcher>, b: seq<Matcher>, i: nat)
    ensures WithIndex(a + b, i) == WithIndex(a, i) + WithIndex(b, i)
    decreases |b|
  {
    if b == [] {
      assert a + b == a;
    } else {
      var n := |b| - 1;
      assert (a + b)[..|a| + n] == a + b[..n];
      WithIndexAppend(a, b[..n], i);
    }
  }

  lemma {:induction false} WithIndexUniform(ms: seq<Matcher>, i: nat, j: nat)
    requires forall t :: 0 <= t < |ms| ==> ms[t].index == j
    ensures WithIndex(ms, i) == if i == j then ms else []
    decreases |ms|
  {
    if ms != [] {
      WithIndexUniform(ms[..|ms| - 1], i, j);
    }
  }

  lemma {:induction false} ConcatWithIndex(bs: seq<seq<Matcher>>, i: nat)
    requires IndexedBlocks(bs)
    ensures WithIndex(Concat(bs), i) == if i < |bs| then bs[i] else []
    decreases |bs|
  {
    if bs != [] {
      var n := |bs| - 1;
      var front := bs[..n];
      assert IndexedBlocks(front);
      ConcatWithIndex(front, i);
      WithIndexAppend(Concat(front), bs[n], i);
      WithIndexUniform(bs[n], i, n);
      if i < n {
        assert front[i] == bs[i];
        assert bs[i] + [] == bs[i];
      } else if i == n {
        assert [] + bs[n] == bs[n];
      }
    }
  }

  /**
   * The matchers tagged i are exactly those entry i contributes, in element
   * order: one per element from position 2 on when the entry is an array,
   * none otherwise, and none for an index past the tree.
   */
  lemma MatchersOfEffect(effects: Json.Value, i: nat)
    ensures WithIndex(MatchersOf(effects), i) == EffectMatchers(Json.At(effects, i), i)
  {
    var bs := Blocks(effects);
    BlocksIndexed(effects);
    ConcatWithIndex(bs, i);
    if i < |bs| {
      assert bs[i] == EffectMatchers(effects.items[i], i);
    }
  }

  /** Every matcher names a block, and the list is ordered by effect index. */
  lemma {:induction false} ConcatOrdered(bs: seq<seq<Matcher>>)
    requires IndexedBlocks(bs)
    ensures forall t :: 0 <= t < |Concat(bs)| ==> Concat(bs)[t].index < |bs|
    ensures forall s, t :: 0 <= s < t < |Concat(bs)| ==> Concat(bs)[s].index <= Concat(bs)[t].index
    decreases |bs|
  {
    if bs != [] {
      var n := |bs| - 1;
      assert IndexedBlocks(bs[..n]);
      ConcatOrdered(bs[..n]);
      var c := Concat(bs);
      var a := Concat(bs[..n]);
      assert c == a + bs[n];
      forall t | 0 <= t < |c| ensures c[t].index < |bs| && (t >= |a| ==> c[t].index == n) {
        if t >= |a| {
          assert c[t] == bs[n][t - |a|];
        } else {
          assert c[t] == a[t];
        }
      }
    }
  }

  /** Every matcher names an entry of the tree, and the list is ordered by effect index. */
  lemma MatchersOrdered(effects: Json.Value)
    ensures forall t :: 0 <= t < |MatchersOf(effects)| ==> MatchersOf(effects)[t].index < Json.Length(effects)
    ensures forall s, t :: 0 <= s < t < |MatchersOf(effects)| ==> MatchersOf(effects)[s].index <= MatchersOf(effects)[t].index
  {
    BlocksIndexed(effects);
    ConcatOrdered(Blocks(effects));
  }

  // ---------------------------------------------------------- classification

  /**
   * The test match applies to each matcher and line: its pattern matches the
   * line and its requirement holds for the item's base type.  The lemmas
   * below hold for any such test.
   */
  function AcceptsFor(base: string, matches: (string, string) -> bool): (Matcher, string) -> bool {
    (m: Matcher, line: string) => matches(m.pattern, line) && CheckReq(m.req, base)
  }

  /** The effect indices of the matchers that accept `str`, one per matcher, in matcher order. */
  function Hits(ms: seq<Matcher>, str: string, accepts: (Matcher, string) -> bool): seq<nat> {
    if ms == [] then []
    else
      Hits(ms[..|ms| - 1], str, accepts)
      + (if accepts(ms[|ms| - 1], str) then [ms[|ms| - 1].index] else [])
  }

  /** An effect index is hit iff some matcher with that index accepts the line. */
  lemma {:induction false} HitsMembers(ms: seq<Matcher>, str: string, accepts: (Matcher, string) -> bool, k: nat)
    ensures k in Hits(ms, str, accepts) <==> Tags(ms, k, accepts, str)
    decreases |ms|
  {
    if ms != [] {
      var n := |ms| - 1;
      HitsMembers(ms[..n], str, accepts, k);
      if k in Hits(ms[..n], str, accepts) {
        var t :| 0 <= t < n && ms[..n][t].index == k && accepts(ms[..n][t], str);
        assert ms[t] == ms[..n][t];
      }
      if Tags(ms, k, accepts, str) {
        var t :| 0 <= t < |ms| && ms[t].index == k && accepts(ms[t], str);
        if t < n {
          assert ms[..n][t] == ms[t];
        }
      }
    }
  }

  /** Section 0 is a lone implicit-modifier line that match skips. */
  predicate SkipsFirst(sections: seq<seq<string>>) {
    |sections| > 1 && |sections[0]| == 1
  }

  /** The section in which unmatched lines are kept (hasImplicit). */
  function UnknownSection(sections: seq<seq<string>>): nat {
    if SkipsFirst(sections) then 1 else 0
  }

  /** The lines of one section, each tagged with the section's index. */
  function Tagged(i: nat, lines: seq<string>): (r: seq<(nat, string)>)
    ensures |r| == |lines|
    ensures forall j :: 0 <= j < |lines| ==> r[j] == (i, lines[j])
  {
    seq(|lines|, j requires 0 <= j < |lines| => (i, lines[j]))
  }

  /** The (section, line) pairs of the first n sections that match classifies, in order. */
  function Classified(sections: seq<seq<string>>, n: nat): seq<(nat, string)>
    requires n <= |sections|
  {
    if n == 0 then []
    else
      Classified(sections, n - 1)
      + (if n - 1 == 0 && SkipsFirst(sections) then [] else Tagged(n - 1, sections[n - 1]))
  }

  /** The pairs classified are exactly the lines of the sections, less a skipped section 0. */
  lemma {:induction false} ClassifiedMembers(sections: seq<seq<string>>, n: nat, i: nat, str: string)
    requires n <= |sections|
    ensures (i, str) in Classified(sections, n) <==>
      i < n && str in sections[i] && !(i == 0 && SkipsFirst(sections))
    decreases n
  {
    if n > 0 {
      ClassifiedMembers(sections, n - 1, i, str);
      var lines := sections[n - 1];
      if str in lines && i == n - 1 {
        var j :| 0 <= j < |lines| && lines[j] == str;
        assert Tagged(n - 1, lines)[j] == (i, str);
      }
    }
  }

  lemma ClassifiedStep(sections: seq<seq<string>>, i: nat)
    requires i < |sections|
    ensures Classified(sections, i + 1)
         == Classified(sections, i) + (if i == 0 && SkipsFirst(sections) then [] else Tagged(i, sections[i]))
  {
  }

  /** `c` copies of `str`. */
  function Repeat(str: string, c: nat): (r: seq<string>)
    ensures |r| == c
  {
    if c == 0 then [] else Repeat(str, c - 1) + [str]
  }

  /** The lines group k collects: each classified line once per accepting matcher tagged k. */
  function GroupLines(cs: seq<(nat, string)>, k: nat, ms: seq<Matcher>, accepts: (Matcher, string) -> bool): seq<string>
  {
    if cs == [] then []
    else
      var str := cs[|cs| - 1].1;
      GroupLines(cs[..|cs| - 1], k, ms, accepts) + Repeat(str, Count(Hits(ms, str, accepts), k))
  }

  /** The lines no matcher accepts, kept only from the section `keep`. */
  function UnknownLines(cs: seq<(nat, string)>, keep: nat, ms: seq<Matcher>, accepts: (Matcher, string) -> bool): seq<string>
  {
    if cs == [] then []
    else
      var p := cs[|cs| - 1];
      UnknownLines(cs[..|cs| - 1], keep, ms, accepts)
      + (if p.0 == keep && Hits(ms, p.1, accepts) == [] then [p.1] else [])
  }

  /** The display name and value template of effect k, as read back from the tree. */
  function Heading(effects: Json.Value, k: nat): seq<string> {
    [Json.GetString(Json.At(Json.At(effects, k), 0)), Json.GetString(Json.At(Json.At(effects, k), 1))]
  }

  /** The lines collected for each effect index 0 .. n-1. */
  function GroupTable(cs: seq<(nat, string)>, ms: seq<Matcher>, accepts: (Matcher, string) -> bool, n: nat): (table: seq<seq<string>>)
    ensures |table| == n
  {
    seq(n, k requires 0 <= k < n => GroupLines(cs, k, ms, accepts))
  }

  /** The groups in ascending effect index, each headed by its effect and only when it collected a line. */
  function EffectGroups(effects: Json.Value, table: seq<seq<string>>): (r: seq<seq<string>>)
    ensures |r| <= |table|
  {
    if table == [] then []
    else
      var k := |table| - 1;
      EffectGroups(effects, table[..k]) + (if table[k] == [] then [] else [Heading(effects, k) + table[k]])
  }

  /** The table match returns: the effect groups, then the "Unknown" group when it is non-empty. */
  function Grouped(effects: Json.Value, ms: seq<Matcher>, tip: Tooltip.Tip,
                   matches: (string, string) -> bool): (r: seq<seq<string>>)
    ensures |r| <= Json.Length(effects) + 1
  {
    var cs := Classified(tip.sections, |tip.sections|);
    var accepts := AcceptsFor(tip.base, matches);
    var unknown := UnknownLines(cs, UnknownSection(tip.sections), ms, accepts);
    EffectGroups(effects, GroupTable(cs, ms, accepts, Json.Length(effects)))
    + (if unknown == [] then [] else [["Unknown"] + unknown])
  }

  lemma {:induction false} RepeatMembers(str: string, c: nat, x: string)
    ensures x in Repeat(str, c) <==> x == str && c > 0
    decreases c
  {
    if c > 0 {
      RepeatMembers(str, c - 1, x);
    }
  }

  /** How often k occurs in h. */
  function Count(h: seq<nat>, k: nat): nat {
    if h == [] then 0 else Count(h[..|h| - 1], k) + (if h[|h| - 1] == k then 1 else 0)
  }

  lemma {:induction false} CountMembers(h: seq<nat>, k: nat)
    ensures Count(h, k) > 0 <==> k in h
    decreases |h|
  {
    if h != [] {
      CountMembers(h[..|h| - 1], k);
      assert h == h[..|h| - 1] + [h[|h| - 1]];
    }
  }

  /**
   * A line lands in group k iff it is a classified line that some matcher
   * tagged k accepts; since every accepting matcher adds it, a line two
   * effects accept lands in both groups.
   */
  lemma {:induction false} GroupMembers(cs: seq<(nat, string)>, k: nat, ms: seq<Matcher>, accepts: (Matcher, string) -> bool, str: string)
    ensures str in GroupLines(cs, k, ms, accepts) <==> HasLine(cs, str) && Tags(ms, k, accepts, str)
    decreases |cs|
  {
    if cs != [] {
      var n := |cs| - 1;
      var last := cs[n].1;
      GroupMembers(cs[..n], k, ms, accepts, str);
      HitsMembers(ms, last, accepts, k);
      RepeatMembers(last, Count(Hits(ms, last, accepts), k), str);
      CountMembers(Hits(ms, last, accepts), k);
      HasLineSnoc(cs, str);
    }
  }

  /** Some classified line is `str`. */
  predicate HasLine(cs: seq<(nat, string)>, str: string) {
    exists c :: 0 <= c < |cs| && cs[c].1 == str
  }

  /** Some matcher tagged k accepts `str`. */
  predicate Tags(ms: seq<Matcher>, k: nat, accepts: (Matcher, string) -> bool, str: string) {
    exists t :: 0 <= t < |ms| && ms[t].index == k && accepts(ms[t], str)
  }

  lemma HasLineSnoc(cs: seq<(nat, string)>, str: string)
    requires cs != []
    ensures HasLine(cs, str) <==> HasLine(cs[..|cs| - 1], str) || cs[|cs| - 1].1 == str
  {
    var n := |cs| - 1;
    if HasLine(cs[..n], str) {
      var c :| 0 <= c < n && cs[..n][c].1 == str;
      assert cs[c].1 == str;
    }
    if HasLine(cs, str) {
      var c :| 0 <= c < |cs| && cs[c].1 == str;
      if c < n {
        assert cs[..n][c].1 == str;
      }
    }
  }

  /** A line that matchers of two different effects accept appears in both their groups. */
  lemma SharedLine(cs: seq<(nat, string)>, ms: seq<Matcher>, accepts: (Matcher, string) -> bool,
                   c: nat, s: nat, t: nat)
    requires c < |cs| && s < |ms| && t < |ms|
    requires accepts(ms[s], cs[c].1) && accepts(ms[t], cs[c].1)
    ensures cs[c].1 in GroupLines(cs, ms[s].index, ms, accepts)
    ensures cs[c].1 in GroupLines(cs, ms[t].index, ms, accepts)
  {
    GroupMembers(cs, ms[s].index, ms, accepts, cs[c].1);
    GroupMembers(cs, ms[t].index, ms, accepts, cs[c].1);
  }

  /** A line is reported unknown iff it lies in section `keep` and no matcher accepts it. */
  lemma {:induction false} UnknownMembers(cs: seq<(nat, string)>, keep: nat, ms: seq<Matcher>, accepts: (Matcher, string) -> bool, str: string)
    ensures str in UnknownLines(cs, keep, ms, accepts) <==>
      (keep, str) in cs && forall t :: 0 <= t < |ms| ==> !accepts(ms[t], str)
    decreases |cs|
  {
    if cs != [] {
      var n := |cs| - 1;
      UnknownMembers(cs[..n], keep, ms, accepts, str);
      assert cs == cs[..n] + [cs[n]];
      if Hits(ms, str, accepts) != [] {
        var k := Hits(ms, str, accepts)[0];
        HitsMembers(ms, str, accepts, k);
      } else {
        forall t | 0 <= t < |ms| ensures !accepts(ms[t], str) {
          HitsMembers(ms, str, accepts, ms[t].index);
        }
      }
    }
  }

  lemma {:induction false} EffectGroupsPrefix(effects: Json.Value, table: seq<seq<string>>, m: nat)
    requires m <= |table|
    ensures EffectGroups(effects, table[..m]) <= EffectGroups(effects, table)
    decreases |table|
  {
    if m < |table| {
      var k := |table| - 1;
      assert table[..k][..m] == table[..m];
      EffectGroupsPrefix(effects, table[..k], m);
    } else {
      assert table[..m] == table;
    }
  }

  /** The group of effect k, when it collected lines, sits at position |EffectGroups(.., table[..k])|. */
  lemma EffectGroupAt(effects: Json.Value, table: seq<seq<string>>, k: nat)
    requires k < |table| && table[k] != []
    ensures |EffectGroups(effects, table[..k])| < |EffectGroups(effects, table[..k + 1])| <= |EffectGroups(effects, table)|
    ensures EffectGroups(effects, table)[|EffectGroups(effects, table[..k])|] == Heading(effects, k) + table[k]
  {
    var upto := table[..k + 1];
    assert upto[..k] == table[..k];
    assert EffectGroups(effects, upto) == EffectGroups(effects, table[..k]) + [Heading(effects, k) + table[k]];
    EffectGroupsPrefix(effects, table, k + 1);
  }

  /**
   * Every effect that collected lines has a group, headed by its name and
   * template, and groups come in ascending effect index.
   */
  lemma GroupsAscending(effects: Json.Value, table: seq<seq<string>>, a: nat, b: nat)
    requires a < b < |table|
    requires table[a] != [] && table[b] != []
    ensures var gs := EffectGroups(effects, table);
      exists ia, ib :: 0 <= ia < ib < |gs| &&
        gs[ia] == Heading(effects, a) + table[a] &&
        gs[ib] == Heading(effects, b) + table[b]
  {
    var ia := |EffectGroups(effects, table[..a])|;
    var ib := |EffectGroups(effects, table[..b])|;
    EffectGroupAt(effects, table, a);
    EffectGroupAt(effects, table, b);
    assert table[..b][..a + 1] == table[..a + 1];
    EffectGroupsPrefix(effects, table[..b], a + 1);
  }

  /** An effect with no collected line has no group: every group holds at least one line. */
  lemma {:induction false} GroupsNonEmpty(effects: Json.Value, table: seq<seq<string>>)
    ensures forall g :: g in EffectGroups(effects, table) ==> |g| > 2
    decreases |table|
  {
    if table != [] {
      GroupsNonEmpty(effects, table[..|table| - 1]);
    }
  }

  /** Conversely, every group is the headed group of an effect that collected lines. */
  lemma {:induction false} GroupsAreEffects(effects: Json.Value, table: seq<seq<string>>)
    ensures forall g :: g in EffectGroups(effects, table) ==>
      exists k :: 0 <= k < |table| && table[k] != [] && g == Heading(effects, k) + table[k]
    decreases |table|
  {
    if table != [] {
      var n := |table| - 1;
      var init := table[..n];
      GroupsAreEffects(effects, init);
      forall g | g in EffectGroups(effects, table)
        ensures exists k :: 0 <= k < |table| && table[k] != [] && g == Heading(effects, k) + table[k]
      {
        if g in EffectGroups(effects, init) {
          var k :| 0 <= k < |init| && init[k] != [] && g == Heading(effects, k) + init[k];
          assert table[k] == init[k];
        } else {
          assert table[n] != [] && g == Heading(effects, n) + table[n];
        }
      }
    }
  }

  lemma HitsStep(ms: seq<Matcher>, t: nat, str: string, accepts: (Matcher, string) -> bool)
    requires t < |ms|
    ensures Hits(ms[..t + 1], str, accepts)
         == Hits(ms[..t], str, accepts) + (if accepts(ms[t], str) then [ms[t].index] else [])
  {
    assert ms[..t + 1][..t] == ms[..t];
  }

  lemma RepeatMore(str: string, c: nat)
    ensures Repeat(str, c + 1) == Repeat(str, c) + [str]
  {
  }

  /** Adding one accepting matcher's index adds one copy of the line under that index. */
  lemma TallyStep(orig: map<nat, seq<string>>, before: map<nat, seq<string>>, after: map<nat, seq<string>>,
                  str: string, h: seq<nat>, accepted: bool, idx: nat)
    requires forall k :: Get(before, k) == Get(orig, k) + Repeat(str, Count(h, k))
    requires after == if accepted then before[idx := Get(before, idx) + [str]] else before
    ensures forall k :: Get(after, k) == Get(orig, k) + Repeat(str, Count(h + (if accepted then [idx] else []), k))
  {
    var h' := h + (if accepted then [idx] else []);
    forall k ensures Get(after, k) == Get(orig, k) + Repeat(str, Count(h', k)) {
      if accepted {
        assert h'[..|h|] == h;
        if k == idx {
          assert Count(h', k) == Count(h, k) + 1;
          assert Get(after, k) == Get(orig, k) + Repeat(str, Count(h, k)) + [str];
        } else {
          assert Count(h', k) == Count(h, k);
        }
      } else {
        assert h' == h;
      }
    }
  }

  /** Classifying one more line extends every group by that line's copies. */
  lemma GroupLinesSnoc(before: map<nat, seq<string>>, after: map<nat, seq<string>>, cs: seq<(nat, string)>,
                       i: nat, str: string, ms: seq<Matcher>, accepts: (Matcher, string) -> bool)
    requires forall k :: Get(before, k) == GroupLines(cs, k, ms, accepts)
    requires forall k :: Get(after, k) == Get(before, k) + Repeat(str, Count(Hits(ms, str, accepts), k))
    ensures forall k :: Get(after, k) == GroupLines(cs + [(i, str)], k, ms, accepts)
  {
    assert (cs + [(i, str)])[..|cs|] == cs;
  }

  lemma UnknownLinesSnoc(cs: seq<(nat, string)>, i: nat, str: string, keep: nat, ms: seq<Matcher>, accepts: (Matcher, string) -> bool)
    ensures UnknownLines(cs + [(i, str)], keep, ms, accepts)
         == UnknownLines(cs, keep, ms, accepts) + (if i == keep && Hits(ms, str, accepts) == [] then [str] else [])
  {
    assert (cs + [(i, str)])[..|cs|] == cs;
  }

  // ------------------------------------------------------------ the class

  /** The group collected so far under key k of `matched` (an absent key holds nothing). */
  function Get(m: map<nat, seq<string>>, k: nat): seq<string> {
    if k in m then m[k] else []
  }

  /** A key of `matched` exists only once a line has been pushed under it. */
  predicate NoEmptyGroups(m: map<nat, seq<string>>) {
    forall k :: k in m ==> m[k] != []
  }

  class ShrineData {
    var effects: Json.Value
    var matchers: seq<Matcher>

    /** Every matcher names an entry of the retained tree. */
    ghost predicate Valid()
      reads this
    {
      forall t :: 0 <= t < |matchers| ==> matchers[t].index < Json.Length(effects)
    }

    /** ShrineData(): an empty tree, then one update. */
    constructor (fetched: Fetch)
      ensures Valid()
      ensures fetched.Decoded? ==> effects == fetched.tree && matchers == MatchersOf(effects)
      ensures fetched.FetchFailed? ==> effects == Json.Null && matchers == []
      ensures fetched.DecodeFailed? ==> effects == fetched.partial && matchers == []
    {
      effects := Json.Null;
      matchers := [];
      new;
      var _ := Update(fetched);
    }

    /** version(): the integer at position 0 of the retained tree. */
    function Version(): (v: int)
      reads this
      ensures Json.Length(effects) > 0 && effects.items[0].Int? ==> v == effects.items[0].n
      ensures (Json.Length(effects) == 0 || !effects.items[0].Int?) ==> v == 0
    {
      Json.GetInteger(Json.At(effects, 0))
    }

    /**
     * update(): the matcher list is cleared first, so a failed fetch leaves
     * it empty; on success the tree is kept and flattened into matchers.
     */
    method Update(fetched: Fetch) returns (ok: bool)
      modifies this
      ensures Valid()
      ensures ok == fetched.Decoded?
      ensures ok ==> effects == fetched.tree && matchers == MatchersOf(effects)
      ensures !ok ==> matchers == []
      ensures fetched.FetchFailed? ==> effects == old(effects)
      ensures fetched.DecodeFailed? ==> effects == fetched.partial
    {
      matchers := [];
      if fetched.FetchFailed? {
        return false;
      }
      if fetched.DecodeFailed? {
        effects := fetched.partial;
        return false;
      }
      var tree := fetched.tree;
      effects := tree;
      var i := 0;
      while i < Json.Length(tree)
        invariant effects == tree && i <= Json.Length(tree)
        invariant matchers == Concat(Blocks(tree)[..i])
      {
        ghost var done := Blocks(tree)[..i];
        var e := Json.At(tree, i);
        if e.Array? {
          AddEffect(e, i);
        }
        assert Blocks(tree)[..i + 1] == done + [EffectMatchers(e, i)];
        assert Blocks(tree)[..i + 1][..i] == done;
        i := i + 1;
      }
      assert Blocks(tree)[..i] == Blocks(tree);
      assert matchers == MatchersOf(tree);
      MatchersOrdered(tree);
      assert Valid();
      return true;
    }

    /** The inner loop of update: one matcher per pattern element of entry i, from position 2 on. */
    method AddEffect(e: Json.Value, i: nat)
      requires e.Array?
      modifies this
      ensures effects == old(effects)
      ensures matchers == old(matchers) + EffectMatchers(e, i)
    {
      var j := 2;
      while j < Json.Length(e)
        invariant effects == old(effects)
        invariant 2 <= j && (j <= 2 || j <= |e.items|)
        invariant matchers == old(matchers) + EffectMatchers(e, i)[..j - 2]
      {
        var reg := Json.At(e, j);
        assert EffectMatchers(e, i)[j - 2] == MatcherFor(reg, i);
        assert EffectMatchers(e, i)[..j - 1] == EffectMatchers(e, i)[..j - 2] + [MatcherFor(reg, i)];
        if reg.Array? {
          matchers := matchers + [Matcher(MakeRe(Json.GetString(Json.At(reg, 0))), i, Json.GetString(Json.At(reg, 1)))];
        } else {
          matchers := matchers + [Matcher(MakeRe(Json.GetString(reg)), i, "")];
        }
        j := j + 1;
      }
      assert EffectMatchers(e, i)[..j - 2] == EffectMatchers(e, i);
    }

    /**
     * The innermost loop of match: offer one line to every matcher, in
     * order; `accepts` is the test AcceptsFor builds from the item's base type.
     */
    method Offer(str: string, accepts: (Matcher, string) -> bool, matched: map<nat, seq<string>>)
      returns (after: map<nat, seq<string>>, found: bool)
      requires NoEmptyGroups(matched)
      ensures NoEmptyGroups(after)
      ensures found == (Hits(matchers, str, accepts) != [])
      ensures forall k :: Get(after, k) == Get(matched, k) + Repeat(str, Count(Hits(matchers, str, accepts), k))
    {
      after, found := matched, false;
      for t := 0 to |matchers|
        invariant NoEmptyGroups(after)
        invariant found == (Hits(matchers[..t], str, accepts) != [])
        invariant forall k :: Get(after, k) == Get(matched, k) + Repeat(str, Count(Hits(matchers[..t], str, accepts), k))
      {
        var m := matchers[t];
        ghost var h := Hits(matchers[..t], str, accepts);
        HitsStep(matchers, t, str, accepts);
        ghost var before := after;
        if accepts(m, str) {
          after := after[m.index := Get(after, m.index) + [str]];
          found := true;
        }
        TallyStep(matched, before, after, str, h, accepts(m, str), m.index);
      }
      assert matchers[..|matchers|] == matchers;
    }

    /** The middle loop of match: classify the lines of section i, in order. */
    method ClassifySection(i: nat, lines: seq<string>, collect: bool, accepts: (Matcher, string) -> bool,
                           ghost done: seq<(nat, string)>, ghost keep: nat,
                           matched: map<nat, seq<string>>, unknown: seq<string>)
      returns (matched': map<nat, seq<string>>, unknown': seq<string>)
      requires collect == (i == keep)
      requires NoEmptyGroups(matched)
      requires forall k :: Get(matched, k) == GroupLines(done, k, matchers, accepts)
      requires unknown == UnknownLines(done, keep, matchers, accepts)
      ensures NoEmptyGroups(matched')
      ensures forall k :: Get(matched', k) == GroupLines(done + Tagged(i, lines), k, matchers, accepts)
      ensures unknown' == UnknownLines(done + Tagged(i, lines), keep, matchers, accepts)
    {
      matched', unknown' := matched, unknown;
      var j := 0;
      assert done + Tagged(i, lines[..0]) == done;
      while j < |lines|
        invariant j <= |lines|
        invariant NoEmptyGroups(matched')
        invariant forall k :: Get(matched', k) == GroupLines(done + Tagged(i, lines[..j]), k, matchers, accepts)
        invariant unknown' == UnknownLines(done + Tagged(i, lines[..j]), keep, matchers, accepts)
      {
        var str := lines[j];
        ghost var cs := done + Tagged(i, lines[..j]);
        assert done + Tagged(i, lines[..j + 1]) == cs + [(i, str)];
        ghost var before := matched';
        var found;
        matched', found := Offer(str, accepts, matched');
        GroupLinesSnoc(before, matched', cs, i, str, matchers, accepts);
        UnknownLinesSnoc(cs, i, str, keep, matchers, accepts);
        if !found && collect {
          unknown' := unknown' + [str];
        }
        j := j + 1;
      }
      assert lines[..|lines|] == lines;
    }

    /** The final loop of match: one group per effect index that collected lines, in ascending order. */
    method Report(matched: map<nat, seq<string>>, ghost table: seq<seq<string>>) returns (res: seq<seq<string>>)
      requires |table| == Json.Length(effects)
      requires NoEmptyGroups(matched)
      requires forall k :: 0 <= k < |table| ==> Get(matched, k) == table[k]
      ensures res == EffectGroups(effects, table)
    {
      res := [];
      var k := 0;
      while k < Json.Length(effects)
        invariant k <= Json.Length(effects)
        invariant res == EffectGroups(effects, table[..k])
      {
        assert table[..k + 1][..k] == table[..k];
        assert table[k] == Get(matched, k);
        if k in matched {
          var entry := Json.At(effects, k);
          res := res + [[Json.GetString(Json.At(entry, 0)), Json.GetString(Json.At(entry, 1))] + matched[k]];
        }
        k := k + 1;
      }
      assert table[..k] == table;
    }

    /** The outer loops of match: classify every section's lines, skipping a lone implicit line. */
    method Classify(sections: seq<seq<string>>, accepts: (Matcher, string) -> bool)
      returns (matched: map<nat, seq<string>>, unknown: seq<string>)
      ensures NoEmptyGroups(matched)
      ensures forall k :: Get(matched, k) == GroupLines(Classified(sections, |sections|), k, matchers, accepts)
      ensures unknown == UnknownLines(Classified(sections, |sections|), UnknownSection(sections), matchers, accepts)
    {
      matched, unknown := map[], [];
      var hasImplicit := 0;
      ghost var keep := UnknownSection(sections);
      var i := 0;
      while i < |sections|
        invariant i <= |sections|
        invariant hasImplicit == if i > 0 then keep else 0
        invariant NoEmptyGroups(matched)
        invariant forall k :: Get(matched, k) == GroupLines(Classified(sections, i), k, matchers, accepts)
        invariant unknown == UnknownLines(Classified(sections, i), keep, matchers, accepts)
      {
        ghost var done := Classified(sections, i);
        ClassifiedStep(sections, i);
        if |sections[i]| == 1 && i == 0 && |sections| > 1 {
          assert Classified(sections, i + 1) == done;
          hasImplicit := 1;
          i := i + 1;
          continue;
        }
        assert Classified(sections, i + 1) == done + Tagged(i, sections[i]);
        matched, unknown := ClassifySection(i, sections[i], i == hasImplicit, accepts, done, keep, matched, unknown);
        i := i + 1;
      }
    }

    /** ShrineData::match. */
    method Match(tip: Tooltip.Tip, matches: (string, string) -> bool) returns (res: seq<seq<string>>)
      requires Valid()
      ensures res == Grouped(effects, matchers, tip, matches)
    {
      var accepts := AcceptsFor(tip.base, matches);
      var matched, unknown := Classify(tip.sections, accepts);
      ghost var cs := Classified(tip.sections, |tip.sections|);
      res := Report(matched, GroupTable(cs, matchers, accepts, Json.Length(effects)));
      if unknown != [] {
        res := res + [["Unknown"] + unknown];
      }
    }
  }
}
