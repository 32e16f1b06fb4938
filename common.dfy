/**
 * String helpers of src/common.cpp: split, the two join overloads, trim,
 * strlower and the word fill _qmemset.  A std::string is a `string` here,
 * one `char` per byte; the character classes are those of the "C" locale.
 */
module Common {

  /** 32-bit unsigned word (uint32 in the source). */
  newtype uint32 = x: int | 0 <= x < 0x1_0000_0000

  /** One byte of a std::string or of a file (uint8 in the source). */
  newtype byte = x: int | 0 <= x < 0x100

  /** isspace in the "C" locale: space, \t, \n, \v, \f and \r. */
  predicate IsSpace(c: char) {
    c == ' ' || 9 <= c as int <= 13
  }

  /** tolower in the "C" locale: only 'A'..'Z' change. */
  function ToLower(c: char): (d: char)
    ensures 'A' <= c <= 'Z' ==> d as int == c as int + 32
    ensures !('A' <= c <= 'Z') ==> d == c
  {
    if 'A' <= c <= 'Z' then (c as int + 32) as char else c
  }

  /** strlower: the string with every character mapped through tolower. */
  function Lower(s: string): (r: string)
    ensures |r| == |s|
    ensures forall i :: 0 <= i < |s| ==> r[i] == ToLower(s[i])
  {
    if s == [] then [] else [ToLower(s[0])] + Lower(s[1..])
  }

  lemma {:induction false} LowerIdempotent(s: string)
    ensures Lower(Lower(s)) == Lower(s)
  {
    var once := Lower(s);
    var twice := Lower(once);
    assert |twice| == |once|;
    forall i | 0 <= i < |s| ensures twice[i] == once[i] {
      assert once[i] == ToLower(s[i]);
    }
  }

  lemma {:induction false} LowerAppend(a: string, b: string)
    ensures Lower(a + b) == Lower(a) + Lower(b)
  {
    var l, r := Lower(a + b), Lower(a) + Lower(b);
    assert |l| == |r|;
    forall i | 0 <= i < |l| ensures l[i] == r[i] {
      if i < |a| { assert (a + b)[i] == a[i]; } else { assert (a + b)[i] == b[i - |a|]; }
    }
  }

  // ---------------------------------------------------------------- split

  /**
   * The pieces of `s` between occurrences of `sep`, as split builds them
   * (common.cpp:61-74): a piece is closed at each separator and the last
   * piece is pushed after the loop, so there is always at least one.
   */
  function Pieces<T(==)>(s: seq<T>, sep: T): (r: seq<seq<T>>)
    ensures |r| >= 1
    decreases |s|
  {
    if s == [] then [[]]
    else
      var init := Pieces(s[..|s| - 1], sep);
      if s[|s| - 1] == sep then init + [[]]
      else init[..|init| - 1] + [init[|init| - 1] + [s[|s| - 1]]]
  }

  /** The pieces put back together with `sep` between every two neighbours. */
  function Interleave<T>(ps: seq<seq<T>>, sep: seq<T>): seq<T>
    requires |ps| >= 1
  {
    if |ps| == 1 then ps[0] else Interleave(ps[..|ps| - 1], sep) + sep + ps[|ps| - 1]
  }

  /** split: the loop keeps `res + [cur]` equal to the pieces of the prefix read so far. */
  method Split(str: string, sep: char) returns (res: seq<string>)
    ensures res == Pieces(str, sep)
  {
    res := [];
    var cur := "";
    for i := 0 to |str|
      invariant res + [cur] == Pieces(str[..i], sep)
    {
      assert str[..i + 1][..i] == str[..i];
      if str[i] == sep {
        res := res + [cur];
        cur := "";
      } else {
        cur := cur + [str[i]];
      }
    }
    assert str[..|str|] == str;
    res := res + [cur];
  }

  /** split returns one piece more than there are separators. */
  lemma {:induction false} PiecesCount<T>(s: seq<T>, sep: T)
    ensures |Pieces(s, sep)| == multiset(s)[sep] + 1
    decreases |s|
  {
    if s != [] {
      var n := |s| - 1;
      PiecesCount(s[..n], sep);
      assert s == s[..n] + [s[n]];
      assert multiset(s) == multiset(s[..n]) + multiset{s[n]};
    }
  }

  /** No piece contains the separator. */
  lemma {:induction false} PiecesAvoidSep<T>(s: seq<T>, sep: T)
    ensures forall p :: p in Pieces(s, sep) ==> sep !in p
    decreases |s|
  {
    if s != [] {
      var init := Pieces(s[..|s| - 1], sep);
      PiecesAvoidSep(s[..|s| - 1], sep);
      if s[|s| - 1] != sep {
        var last := init[|init| - 1];
        assert last in init;
        assert forall p :: p in init[..|init| - 1] ==> p in init;
      }
    }
  }

  /** Input without the separator is a single piece. */
  lemma {:induction false} PiecesWithoutSep<T>(s: seq<T>, sep: T)
    requires sep !in s
    ensures Pieces(s, sep) == [s]
    decreases |s|
  {
    if s != [] {
      var n := |s| - 1;
      PiecesWithoutSep(s[..n], sep);
      assert s[..n] + [s[n]] == s;
    }
  }

  /** Text after a last separator becomes one more piece. */
  lemma {:induction false} PiecesAfterSep<T>(a: seq<T>, sep: T, b: seq<T>)
    requires sep !in b
    ensures Pieces(a + [sep] + b, sep) == Pieces(a, sep) + [b]
    decreases |b|
  {
    var s := a + [sep] + b;
    if b == [] {
      assert s[..|s| - 1] == a;
    } else {
      var n := |b| - 1;
      PiecesAfterSep(a, sep, b[..n]);
      assert s[..|s| - 1] == a + [sep] + b[..n];
      assert b[..n] + [b[n]] == b;
    }
  }

  lemma InterleaveExtendLast<T>(ps: seq<seq<T>>, sep: seq<T>, x: T)
    requires |ps| >= 1
    ensures Interleave(ps[..|ps| - 1] + [ps[|ps| - 1] + [x]], sep) == Interleave(ps, sep) + [x]
  {
    var qs := ps[..|ps| - 1] + [ps[|ps| - 1] + [x]];
    if |ps| > 1 {
      assert qs[..|qs| - 1] == ps[..|ps| - 1];
    }
  }

  lemma InterleaveExtendEmpty<T>(ps: seq<seq<T>>, sep: seq<T>)
    requires |ps| >= 1
    ensures Interleave(ps + [[]], sep) == Interleave(ps, sep) + sep
  {
    assert (ps + [[]])[..|ps|] == ps;
  }

  /** Interleaving the pieces with the separator gives back the input. */
  lemma {:induction false} PiecesInterleave<T>(s: seq<T>, sep: T)
    ensures Interleave(Pieces(s, sep), [sep]) == s
    decreases |s|
  {
    if s != [] {
      var n := |s| - 1;
      var init := Pieces(s[..n], sep);
      PiecesInterleave(s[..n], sep);
      assert s[..n] + [s[n]] == s;
      if s[n] == sep {
        assert Pieces(s, sep) == init + [[]];
        InterleaveExtendEmpty(init, [sep]);
      } else {
        assert Pieces(s, sep) == init[..|init| - 1] + [init[|init| - 1] + [s[n]]];
        InterleaveExtendLast(init, [sep], s[n]);
      }
    }
  }

  // ----------------------------------------------------------------- join

  /**
   * The join loop (common.cpp:75-90): `sep` is appended before an element
   * only when the text built so far is non-empty.
   */
  function Joined(list: seq<string>, sep: string): (r: string)
    ensures list == [] ==> r == ""
    ensures list != [] && list[|list| - 1] != "" ==> r != ""
  {
    if list == [] then ""
    else
      var acc := Joined(list[..|list| - 1], sep);
      if acc == "" then list[|list| - 1] else acc + sep + list[|list| - 1]
  }

  /** join(list, char): the separator argument is never used; a space is inserted instead. */
  method Join(list: seq<string>, sep: char) returns (res: string)
    ensures res == Joined(list, " ")
  {
    res := "";
    for i := 0 to |list|
      invariant res == Joined(list[..i], " ")
    {
      assert list[..i + 1][..i] == list[..i];
      if res != "" {
        res := res + [' '];
      }
      res := res + list[i];
    }
    assert list[..|list|] == list;
  }

  /** join(list, string). */
  method JoinWith(list: seq<string>, sep: string) returns (res: string)
    ensures res == Joined(list, sep)
  {
    res := "";
    for i := 0 to |list|
      invariant res == Joined(list[..i], sep)
    {
      assert list[..i + 1][..i] == list[..i];
      if res != "" {
        res := res + sep;
      }
      res := res + list[i];
    }
    assert list[..|list|] == list;
  }

  /** For a list of non-empty elements, join puts `sep` between every two neighbours. */
  lemma {:induction false} JoinedNonEmpty(list: seq<string>, sep: string)
    requires |list| >= 1
    requires forall i :: 0 <= i < |list| ==> list[i] != ""
    ensures Joined(list, sep) == Interleave(list, sep)
    ensures Joined(list, sep) != ""
    decreases |list|
  {
    if |list| > 1 {
      JoinedNonEmpty(list[..|list| - 1], sep);
    }
  }

  /** Empty elements at the front leave no separator behind. */
  lemma {:induction false} JoinedDropsLeadingEmpty(empties: seq<string>, list: seq<string>, sep: string)
    requires AllEmpty(empties)
    ensures Joined(empties + list, sep) == Joined(list, sep)
    decreases |list|
  {
    if list == [] {
      assert empties + list == empties;
      JoinedAllEmpty(empties, sep);
    } else {
      var n := |list| - 1;
      assert (empties + list)[..|empties| + n] == empties + list[..n];
      JoinedDropsLeadingEmpty(empties, list[..n], sep);
    }
  }

  predicate AllEmpty(list: seq<string>) {
    forall i :: 0 <= i < |list| ==> list[i] == ""
  }

  /** The joined text is "" exactly when every element is "". */
  lemma {:induction false} JoinedAllEmpty(list: seq<string>, sep: string)
    ensures Joined(list, sep) == "" <==> AllEmpty(list)
    decreases |list|
  {
    if list != [] {
      var n := |list| - 1;
      var init := list[..n];
      JoinedAllEmpty(init, sep);
      assert AllEmpty(list) <==> AllEmpty(init) && list[n] == "" by {
        if AllEmpty(list) {
          forall i | 0 <= i < n ensures init[i] == "" {
            assert init[i] == list[i];
          }
        }
        if AllEmpty(init) && list[n] == "" {
          forall i | 0 <= i < |list| ensures list[i] == "" {
            if i < n {
              assert list[i] == init[i];
            }
          }
        }
      }
    }
  }

  /** Splitting on `c` and joining with "c" is the identity when no piece is empty. */
  lemma SplitThenJoin(s: string, c: char)
    requires forall p :: p in Pieces(s, c) ==> p != ""
    ensures Joined(Pieces(s, c), [c]) == s
  {
    var ps := Pieces(s, c);
    assert forall i :: 0 <= i < |ps| ==> ps[i] in ps;
    JoinedNonEmpty(ps, [c]);
    PiecesInterleave(s, c);
  }

  // ----------------------------------------------------------------- trim

  /** Index of the first non-space character (|s| when there is none). */
  function LeftEdge(s: string): (l: nat)
    ensures l <= |s|
    ensures forall i :: 0 <= i < l ==> IsSpace(s[i])
    ensures l < |s| ==> !IsSpace(s[l])
  {
    if s == [] || !IsSpace(s[0]) then 0 else 1 + LeftEdge(s[1..])
  }

  /** One past the last non-space character at or after `l` (`l` when there is none). */
  function RightEdge(s: string, l: nat): (r: nat)
    requires l <= |s|
    ensures l <= r <= |s|
    ensures forall i :: r <= i < |s| ==> IsSpace(s[i])
    ensures r > l ==> !IsSpace(s[r - 1])
    decreases |s|
  {
    if |s| == l || !IsSpace(s[|s| - 1]) then |s| else RightEdge(s[..|s| - 1], l)
  }

  /** trim (common.cpp:163-168). */
  function Trimmed(s: string): (t: string)
    ensures |t| <= |s|
    ensures t == "" || (!IsSpace(t[0]) && !IsSpace(t[|t| - 1]))
    ensures t == "" <==> forall i :: 0 <= i < |s| ==> IsSpace(s[i])
  {
    var l := LeftEdge(s);
    var r := RightEdge(s, l);
    assert r == l ==> forall i :: 0 <= i < |s| ==> IsSpace(s[i]);
    s[l..r]
  }

  /**
   * Trimmed is the only infix whose outside is all white space and whose
   * ends are not: any such s[l..r] is the trimmed string.
   */
  lemma TrimmedUnique(s: string, l: nat, r: nat)
    requires l <= r <= |s|
    requires forall i :: 0 <= i < l ==> IsSpace(s[i])
    requires forall i :: r <= i < |s| ==> IsSpace(s[i])
    requires l < r ==> !IsSpace(s[l]) && !IsSpace(s[r - 1])
    ensures Trimmed(s) == s[l..r]
  {
    var l' := LeftEdge(s);
    var r' := RightEdge(s, l');
    if l < r {
      assert l' == l;
      assert r' == r;
    } else {
      assert forall i :: 0 <= i < |s| ==> IsSpace(s[i]);
    }
  }

  lemma TrimIdempotent(s: string)
    ensures Trimmed(Trimmed(s)) == Trimmed(s)
  {
    var t := Trimmed(s);
    TrimmedUnique(t, 0, |t|);
    assert t[0..|t|] == t;
  }

  /** trim: the two loops move `left` and `right` inwards past white space. */
  method Trim(str: string) returns (res: string)
    ensures res == Trimmed(str)
  {
    var left, right := 0, |str|;
    while left < |str| && IsSpace(str[left])
      invariant left <= |str|
      invariant forall i :: 0 <= i < left ==> IsSpace(str[i])
    {
      left := left + 1;
    }
    while right > left && IsSpace(str[right - 1])
      invariant left <= right <= |str|
      invariant forall i :: right <= i < |str| ==> IsSpace(str[i])
    {
      right := right - 1;
    }
    TrimmedUnique(str, left, right);
    res := str[left..right];
  }

  // ------------------------------------------------------------ substring

  /** std::string::find(needle) != npos; the empty needle is found at 0. */
  predicate Contains(hay: string, needle: string) {
    exists i :: 0 <= i <= |hay| && needle <= hay[i..]
  }

  // -------------------------------------------------------------- memset

  /** _qmemset: writes `count` consecutive words starting at `start`. */
  method QMemset(mem: array<uint32>, start: nat, fill: uint32, count: uint32)
    requires start + count as int <= mem.Length
    modifies mem
    ensures forall i :: start <= i < start + count as int ==> mem[i] == fill
    ensures forall i :: 0 <= i < mem.Length && !(start <= i < start + count as int) ==> mem[i] == old(mem[i])
  {
    var p, n := start, count;
    while n > 0
      invariant p == start + (count - n) as int
      invariant forall i :: start <= i < p ==> mem[i] == fill
      invariant forall i :: 0 <= i < mem.Length && !(start <= i < p) ==> mem[i] == old(mem[i])
    {
      mem[p] := fill;
      p, n := p + 1, n - 1;
    }
  }
}
