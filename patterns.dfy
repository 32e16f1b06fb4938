/**
 * The text patterns of src/main.cpp.
 *
 * The regular-expression engine (re::Prog, regexp.h) is not part of this
 * model.  The five fixed patterns that ItemTip::parse compiles
 * (main.cpp:36-40) are given here as explicit recognisers, under the
 * assumption that re::Prog::match succeeds only when the pattern matches
 * the WHOLE line (anchored at both ends); the lines the parser feeds them
 * come from splitting on '\n', so '.' is taken to match any character.
 * The knowledge-base patterns are only rewritten here (makeRe); matching
 * them is left to the engine, which the matcher takes as a parameter.
 */
module Patterns {
  import opened Wrappers
  import opened Common

  /** \w: ASCII letters, digits and underscore. */
  predicate IsWordChar(c: char) {
    'a' <= c <= 'z' || 'A' <= c <= 'Z' || '0' <= c <= '9' || c == '_'
  }

  /** \w+ */
  predicate IsWord(s: string) {
    s != [] && forall i :: 0 <= i < |s| ==> IsWordChar(s[i])
  }

  /** \d+ */
  predicate IsDigits(s: string) {
    s != [] && forall i :: 0 <= i < |s| ==> '0' <= s[i] <= '9'
  }

  /** [RGB \-]+ */
  predicate IsSocketText(s: string) {
    s != [] && forall i :: 0 <= i < |s| ==> s[i] in "RGB -"
  }

  // ------------------------------------------------------ Rarity: (\w+)

  const RarityTag := "Rarity: "

  /** reRarity: the captured word of a line of the form `Rarity: <word>`. */
  function RarityOf(line: string): (w: Option<string>)
    ensures w.Some? ==> IsWord(w.value) && line == RarityTag + w.value
  {
    if RarityTag <= line && IsWord(line[|RarityTag|..]) then Some(line[|RarityTag|..]) else None
  }

  /** Every `Rarity: <word>` line is recognised, with that word captured. */
  lemma RarityOfWord(word: string)
    requires IsWord(word)
    ensures RarityOf(RarityTag + word) == Some(word)
  {
    assert (RarityTag + word)[|RarityTag|..] == word;
  }

  // --------------------------------------------------- ([^:]+): (.+)

  /** Index of the first `c` in `s`, or |s|. */
  function IndexOf(s: string, c: char): (i: nat)
    ensures i <= |s|
    ensures i < |s| ==> s[i] == c
    ensures forall k :: 0 <= k < i ==> s[k] != c
  {
    if s == [] || s[0] == c then 0 else 1 + IndexOf(s[1..], c)
  }

  /**
   * reKeyValue: `[^:]+` cannot run past the first colon, so the key is
   * everything before the first ':' and must be non-empty, the colon must
   * be followed by a space, and the value is the non-empty rest.
   */
  function KeyValueOf(line: string): (kv: Option<(string, string)>)
    ensures kv.Some? ==> line == kv.value.0 + ": " + kv.value.1
    ensures kv.Some? ==> kv.value.0 != "" && ':' !in kv.value.0 && kv.value.1 != ""
  {
    var i := IndexOf(line, ':');
    if 0 < i && i + 2 < |line| && line[i + 1] == ' ' then
      assert line == line[..i] + ": " + line[i + 2..];
      Some((line[..i], line[i + 2..]))
    else None
  }

  /** Conversely, every `key: value` line with a colon-free key is split at its first colon. */
  lemma KeyValueOfShape(key: string, value: string)
    requires key != "" && ':' !in key && value != ""
    ensures KeyValueOf(key + ": " + value) == Some((key, value))
  {
    var line := key + ": " + value;
    assert forall k :: 0 <= k < |key| ==> line[k] == key[k];
    assert line[|key|] == ':';
    assert IndexOf(line, ':') == |key|;
    assert line[..|key|] == key;
    assert line[|key| + 2..] == value;
  }

  // ------------------------------------------------- Sockets: ([RGB \-]+)

  const SocketsTag := "Sockets: "

  /** reSockets: the captured socket colours. */
  function SocketsOf(line: string): (s: Option<string>)
    ensures s.Some? ==> IsSocketText(s.value) && line == SocketsTag + s.value
  {
    if SocketsTag <= line && IsSocketText(line[|SocketsTag|..]) then Some(line[|SocketsTag|..]) else None
  }

  /** Every `Sockets: ` line over R, G, B, space and '-' is recognised, with that text captured. */
  lemma SocketsComplete(t: string)
    requires IsSocketText(t)
    ensures SocketsOf(SocketsTag + t) == Some(t)
  {
    assert (SocketsTag + t)[|SocketsTag|..] == t;
  }

  // ------------------------------------ (Itemlevel|Item Level): (\d+)

  const LevelLabel := "Itemlevel"
  const LevelLabelSpaced := "Item Level"
  const LevelTag := LevelLabel + ": "
  const LevelTagSpaced := LevelLabelSpaced + ": "

  /**
   * reLevel's two capture groups, sub[1] and sub[2]: the label, in either
   * spelling, and the digits after it.
   */
  function LevelCaptures(line: string): (c: Option<(string, string)>)
    ensures c.Some? ==> c.value.0 == LevelLabel || c.value.0 == LevelLabelSpaced
    ensures c.Some? ==> IsDigits(c.value.1) && line == c.value.0 + ": " + c.value.1
  {
    if LevelTag <= line && IsDigits(line[|LevelTag|..]) then
      assert line == LevelTag + line[|LevelTag|..];
      Some((LevelLabel, line[|LevelTag|..]))
    else if LevelTagSpaced <= line && IsDigits(line[|LevelTagSpaced|..]) then
      assert line == LevelTagSpaced + line[|LevelTagSpaced|..];
      Some((LevelLabelSpaced, line[|LevelTagSpaced|..]))
    else None
  }

  /** Both spellings of the label followed by digits are recognised, with both groups captured. */
  lemma LevelCapturesDigits(ds: string)
    requires IsDigits(ds)
    ensures LevelCaptures(LevelTag + ds) == Some((LevelLabel, ds))
    ensures LevelCaptures(LevelTagSpaced + ds) == Some((LevelLabelSpaced, ds))
  {
    assert (LevelTag + ds)[|LevelTag|..] == ds;
    assert (LevelTagSpaced + ds)[|LevelTagSpaced|..] == ds;
    assert !(LevelTag <= LevelTagSpaced + ds) by {
      assert (LevelTagSpaced + ds)[4] != LevelTag[4];
    }
  }

  /** The decimal value of a string of digits (int overflow is not modelled). */
  function DecimalValue(ds: string): (v: nat)
    requires forall i :: 0 <= i < |ds| ==> '0' <= ds[i] <= '9'
  {
    if ds == [] then 0 else DecimalValue(ds[..|ds| - 1]) * 10 + (ds[|ds| - 1] as int - '0' as int)
  }

  /** Length of the run of decimal digits at the front of `s`. */
  function DigitRun(s: string): (n: nat)
    ensures n <= |s|
    ensures forall i :: 0 <= i < n ==> '0' <= s[i] <= '9'
    ensures n < |s| ==> !('0' <= s[n] <= '9')
  {
    if s == [] || !('0' <= s[0] <= '9') then 0 else 1 + DigitRun(s[1..])
  }

  /**
   * atoi: the decimal value of the digits at the front of its argument, and
   * 0 when there are none.  Leading white space and a sign are not modelled:
   * no argument in this program starts with either.
   */
  function Atoi(s: string): (v: nat)
    ensures IsDigits(s) ==> v == DecimalValue(s)
    ensures s == [] || !('0' <= s[0] <= '9') ==> v == 0
  {
    var n := DigitRun(s);
    assert IsDigits(s) ==> n == |s| && s[..n] == s;
    DecimalValue(s[..n])
  }

  /**
   * reLevel followed by atoi of sub[1], as main.cpp:97 writes it.  sub[1] is
   * the label group, not the digits, so every recognised line gives 0.
   */
  function LevelAsWritten(line: string): (lv: Option<int>)
    ensures lv.Some? <==> LevelCaptures(line).Some?
  {
    match LevelCaptures(line)
    case None => None
    case Some((name, _)) => Some(Atoi(name))
  }

  /** As written, the item level of a recognised line is 0, whatever its digits say. */
  lemma LevelAsWrittenIgnoresDigits(ds: string)
    requires IsDigits(ds)
    ensures LevelAsWritten(LevelTag + ds) == Some(0)
    ensures LevelAsWritten(LevelTagSpaced + ds) == Some(0)
  {
    LevelCapturesDigits(ds);
    assert LevelLabel[0] == 'I' && LevelLabelSpaced[0] == 'I';
  }

  /** The line "Item Level: 68" is read as level 0 as written, and as 68 by LevelOf. */
  lemma LevelSixtyEight()
    ensures LevelAsWritten(LevelTagSpaced + "68") == Some(0)
    ensures LevelOf(LevelTagSpaced + "68") == Some(68)
  {
    assert IsDigits("68");
    LevelAsWrittenIgnoresDigits("68");
    LevelOfDigits("68");
    SixtyEight();
  }

  lemma SixtyEight()
    ensures DecimalValue("68") == 68
  {
    assert "68"[..1] == "6" && "6"[..0] == "";
  }

  /**
   * The item level as intended: atoi of the digit group sub[2].  A
   * recognised line is one of the two labels, ": " and digits, and the
   * level is the decimal value of those digits.
   */
  function LevelOf(line: string): (lv: Option<int>)
    ensures lv.Some? <==> LevelCaptures(line).Some?
    ensures lv.Some? ==>
      exists ds :: IsDigits(ds) && (line == LevelTag + ds || line == LevelTagSpaced + ds) && lv.value == DecimalValue(ds)
  {
    match LevelCaptures(line)
    case None => None
    case Some((name, ds)) =>
      assert line == name + ": " + ds;
      assert name + ": " == LevelTag || name + ": " == LevelTagSpaced;
      Some(Atoi(ds))
  }

  /** Both spellings of the label followed by digits give the decimal value of the digits. */
  lemma LevelOfDigits(ds: string)
    requires IsDigits(ds)
    ensures LevelOf(LevelTag + ds) == Some(DecimalValue(ds))
    ensures LevelOf(LevelTagSpaced + ds) == Some(DecimalValue(ds))
  {
    LevelCapturesDigits(ds);
  }

  // ------------------------------------------------------- <<set:\w+>>

  const JunkOpen := "<<set:"

  /** Length of the longest run of word characters at the front of `s`. */
  function WordRun(s: string): (n: nat)
    ensures n <= |s|
    ensures forall i :: 0 <= i < n ==> IsWordChar(s[i])
    ensures n < |s| ==> !IsWordChar(s[n])
  {
    if s == [] || !IsWordChar(s[0]) then 0 else 1 + WordRun(s[1..])
  }

  /**
   * Length of the reJunk match that starts at the front of `s` (0 if none).
   * \w+ is greedy and '>' is not a word character, so the match, when
   * there is one, ends at the first ">>" after the longest word run.
   */
  function JunkAt(s: string): (n: nat)
    ensures n <= |s|
    ensures n > 0 ==> JunkOpen <= s && n >= |JunkOpen| + 3
    ensures n > 0 ==> IsWord(s[|JunkOpen|..n - 2]) && s[n - 2..n] == ">>"
  {
    if JunkOpen <= s then
      var w := WordRun(s[|JunkOpen|..]);
      if w > 0 && ">>" <= s[|JunkOpen| + w..] then |JunkOpen| + w + 2 else 0
    else 0
  }

  /**
   * reJunk.replace(str, ""): every match, scanned left to right without
   * overlap, is deleted (replace-all is assumed of the unseen engine).
   */
  function StripJunk(s: string): (r: string)
    ensures |r| <= |s|
    ensures '<' !in s ==> r == s
    decreases |s|
  {
    if s == [] then []
    else
      var n := JunkAt(s);
      if n > 0 then
        assert s[0] == JunkOpen[0] == '<';
        StripJunk(s[n..])
      else
        assert '<' !in s ==> '<' !in s[1..];
        [s[0]] + StripJunk(s[1..])
  }

  /** A decorative tag at the front is removed entirely. */
  lemma StripJunkTag(word: string, rest: string)
    requires IsWord(word)
    ensures StripJunk(JunkOpen + word + ">>" + rest) == StripJunk(rest)
  {
    var s := JunkOpen + word + ">>" + rest;
    var t := word + ">>" + rest;
    assert s[|JunkOpen|..] == t;
    WordRunStops(word, ">>" + rest);
    assert t[|word|..] == ">>" + rest;
    assert s[|JunkOpen| + |word|..] == ">>" + rest;
    assert JunkAt(s) == |JunkOpen| + |word| + 2;
    assert s[|JunkOpen| + |word| + 2..] == rest;
  }

  /** The word run of a word followed by a non-word character is the word. */
  lemma {:induction false} WordRunStops(word: string, tail: string)
    requires IsWord(word) && tail != [] && !IsWordChar(tail[0])
    ensures WordRun(word + tail) == |word|
    decreases |word|
  {
    assert (word + tail)[1..] == word[1..] + tail;
    if |word| > 1 {
      assert IsWord(word[1..]);
      WordRunStops(word[1..], tail);
    }
  }

  // ------------------------------------------------------------- makeRe

  /** What makeRe writes for one template character (main.cpp:165-167). */
  function Rewrite(c: char): string {
    if c == '+' then "\\+" else if c == '#' then "[0-9.]+" else [c]
  }

  /**
   * ShrineData::makeRe: '+' is escaped to match itself and '#' becomes the
   * numeric wildcard, so no '#' survives.
   */
  function MakeRe(src: string): (r: string)
    ensures |r| >= |src|
  {
    if src == [] then [] else Rewrite(src[0]) + MakeRe(src[1..])
  }

  /** No '#' survives, and a template with neither '+' nor '#' is its own pattern. */
  lemma {:induction false} MakeReShape(src: string)
    ensures '#' !in MakeRe(src)
    ensures '+' !in src && '#' !in src ==> MakeRe(src) == src
    decreases |src|
  {
    if src != [] {
      assert src == [src[0]] + src[1..];
      MakeReShape(src[1..]);
    }
  }

  /** The rewritten pattern grows by one character per '+' and by six per '#'. */
  lemma {:induction false} MakeReLength(src: string)
    ensures |MakeRe(src)| == |src| + multiset(src)['+'] + 6 * multiset(src)['#']
    decreases |src|
  {
    if src != [] {
      assert src == [src[0]] + src[1..];
      MakeReLength(src[1..]);
    }
  }

  /** makeRe works character by character, so it distributes over concatenation. */
  lemma {:induction false} MakeReAppend(a: string, b: string)
    ensures MakeRe(a + b) == MakeRe(a) + MakeRe(b)
    decreases |a|
  {
    if a != [] {
      assert (a + b)[1..] == a[1..] + b;
      MakeReAppend(a[1..], b);
    } else {
      assert a + b == b;
    }
  }

  // ----------------------------------------------------------- checkReq

  /** The scan of checkReq's loop: does `tlow` contain one of `parts`? */
  function AnyPartIn(parts: seq<string>, tlow: string): (found: bool)
    ensures found <==> exists i :: 0 <= i < |parts| && Contains(tlow, parts[i])
  {
    if parts == [] then false else Contains(tlow, parts[0]) || AnyPartIn(parts[1..], tlow)
  }

  /**
   * ShrineData::checkReq (main.cpp:171-190).  The parts after "type" are
   * compared with the LOWER-CASED base type, but are not lower-cased
   * themselves; an empty part is always contained.
   */
  function CheckReq(req: string, itemType: string): (ok: bool)
    ensures req == "" ==> ok
    ensures req != "" && itemType == "" ==> !ok
  {
    if req == "" then true
    else if itemType == "" then false
    else if "type+" <= req then AnyPartIn(Pieces(req, '+')[1..], Lower(itemType))
    else if "type-" <= req then !AnyPartIn(Pieces(req, '-')[1..], Lower(itemType))
    else true
  }

  /**
   * A "type+a+b" requirement holds iff one of the parts after "type" occurs
   * in the lower-cased base type; a missing base type fails it.
   */
  lemma CheckReqAny(req: string, itemType: string)
    requires "type+" <= req
    ensures itemType == "" ==> !CheckReq(req, itemType)
    ensures itemType != "" ==>
      (CheckReq(req, itemType) <==> SomePartIn(Pieces(req, '+'), Lower(itemType)))
  {
    if itemType != "" {
      AnyPartInTail(Pieces(req, '+'), Lower(itemType));
    }
  }

  /**
   * A "type-a-b" requirement holds iff none of the parts after "type" occurs
   * in the lower-cased base type; a missing base type fails it.
   */
  lemma CheckReqNone(req: string, itemType: string)
    requires "type-" <= req
    ensures itemType == "" ==> !CheckReq(req, itemType)
    ensures itemType != "" ==>
      (CheckReq(req, itemType) <==> !SomePartIn(Pieces(req, '-'), Lower(itemType)))
  {
    assert !("type+" <= req) by { assert req[4] == '-'; }
    if itemType != "" {
      AnyPartInTail(Pieces(req, '-'), Lower(itemType));
    }
  }

  /** No requirement always holds; any other requirement holds when the item has a base type. */
  lemma CheckReqOther(req: string, itemType: string)
    requires !("type+" <= req) && !("type-" <= req)
    ensures req == "" || itemType != "" <==> CheckReq(req, itemType)
  {
  }

  /** Some part after the first ("type") occurs in `tlow`. */
  predicate SomePartIn(parts: seq<string>, tlow: string) {
    exists i :: 1 <= i < |parts| && Contains(tlow, parts[i])
  }

  /** The scan starts at the part after "type". */
  lemma AnyPartInTail(parts: seq<string>, tlow: string)
    requires |parts| >= 1
    ensures AnyPartIn(parts[1..], tlow) <==> SomePartIn(parts, tlow)
  {
    if AnyPartIn(parts[1..], tlow) {
      var i :| 0 <= i < |parts[1..]| && Contains(tlow, parts[1..][i]);
      assert parts[i + 1] == parts[1..][i];
    }
    if exists i :: 1 <= i < |parts| && Contains(tlow, parts[i]) {
      var i :| 1 <= i < |parts| && Contains(tlow, parts[i]);
      assert parts[1..][i - 1] == parts[i];
    }
  }
}
