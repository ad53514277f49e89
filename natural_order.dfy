/** The order in which the readers sort a bucket: PHP's natural, case-insensitive
    comparison (`SORT_NATURAL | SORT_FLAG_CASE`), simplified.

    A string is read as a sequence of chunks: each maximal run of decimal digits is
    one `Number` chunk holding its value, and every other character is a `Letter`
    chunk holding its upper-case form. Two strings compare as their chunk sequences
    do, lexicographically. So "item2" comes before "Item10" (2 < 10) and "Item1"
    before "item2", whatever the case of the letters. */
module NaturalOrder {
  import Sorting

  datatype Chunk = Number(n: nat) | Letter(c: char)

  predicate IsDigit(c: char) {
    '0' <= c <= '9'
  }

  /** ASCII case folding to upper case, as PHP's case-insensitive natural compare
      does; so '_' and the backslash (between 'Z' and 'a') sort after every letter. */
  function Upper(c: char): (u: char)
    ensures 'a' <= c <= 'z' ==> 'A' <= u <= 'Z'
    ensures !('a' <= c <= 'z') ==> u == c
  {
    if 'a' <= c <= 'z' then (c as int - 32) as char else c
  }

  /** The length of the run of digits at the front of `s`. */
  function DigitRun(s: string): (n: nat)
    ensures n <= |s|
    ensures forall k :: 0 <= k < n ==> IsDigit(s[k])
    ensures n < |s| ==> !IsDigit(s[n])
  {
    if s == [] || !IsDigit(s[0]) then 0 else 1 + DigitRun(s[1..])
  }

  /** The decimal value of a string of digits. */
  function DigitsValue(s: string): nat
    requires forall k :: 0 <= k < |s| ==> IsDigit(s[k])
  {
    if s == [] then 0
    else
      assert IsDigit(s[|s| - 1]);
      10 * DigitsValue(s[..|s| - 1]) + (s[|s| - 1] as int - '0' as int)
  }

  function Chunks(s: string): seq<Chunk>
    decreases |s|
  {
    if s == [] then []
    else if IsDigit(s[0]) then
      var n := DigitRun(s);
      [Number(DigitsValue(s[..n]))] + Chunks(s[n..])
    else [Letter(Upper(s[0]))] + Chunks(s[1..])
  }

  /** Chunks compare by value; a number sorts where the character '0' would. */
  predicate ChunkLe(x: Chunk, y: Chunk) {
    match (x, y)
    case (Number(a), Number(b)) => a <= b
    case (Number(_), Letter(d)) => '0' <= d
    case (Letter(c), Number(_)) => c < '0'
    case (Letter(c), Letter(d)) => c <= d
  }

  /** Lexicographic order on chunk sequences; a proper prefix comes first. */
  predicate LexLe(x: seq<Chunk>, y: seq<Chunk>)
    decreases |x|
  {
    if x == [] then true
    else if y == [] then false
    else if x[0] == y[0] then LexLe(x[1..], y[1..])
    else ChunkLe(x[0], y[0])
  }

  /** The comparator the readers sort with. Strings equal up to letter case are
      at most each other; the first branch only adds the proof of that. */
  function NatCaseLe(s: string, t: string): (r: bool)
    ensures |s| == |t| && (forall i :: 0 <= i < |s| ==> Upper(s[i]) == Upper(t[i])) ==> r
  {
    if |s| == |t| && (forall i :: 0 <= i < |s| ==> Upper(s[i]) == Upper(t[i])) then
      ChunksIgnoreCase(s, t);
      LexLeReflexive(Chunks(s));
      LexLe(Chunks(s), Chunks(t))
    else
      LexLe(Chunks(s), Chunks(t))
  }

  lemma ChunkLeIsTotalOrder(x: Chunk, y: Chunk, z: Chunk)
    ensures ChunkLe(x, x)
    ensures ChunkLe(x, y) || ChunkLe(y, x)
    ensures ChunkLe(x, y) && ChunkLe(y, x) ==> x == y
    ensures ChunkLe(x, y) && ChunkLe(y, z) ==> ChunkLe(x, z)
  {
  }

  lemma {:induction false} LexLeReflexive(x: seq<Chunk>)
    ensures LexLe(x, x)
    decreases |x|
  {
    if x != [] {
      LexLeReflexive(x[1..]);
    }
  }

  lemma {:induction false} LexLeTotal(x: seq<Chunk>, y: seq<Chunk>)
    ensures LexLe(x, y) || LexLe(y, x)
    decreases |x|
  {
    if x != [] && y != [] {
      if x[0] == y[0] {
        LexLeTotal(x[1..], y[1..]);
      } else {
        ChunkLeIsTotalOrder(x[0], y[0], x[0]);
      }
    }
  }

  lemma {:induction false} LexLeTransitive(x: seq<Chunk>, y: seq<Chunk>, z: seq<Chunk>)
    requires LexLe(x, y) && LexLe(y, z)
    ensures LexLe(x, z)
    decreases |x|
  {
    if x != [] {
      assert y != [] && z != [];
      ChunkLeIsTotalOrder(x[0], y[0], z[0]);
      if x[0] == y[0] && y[0] == z[0] {
        LexLeTransitive(x[1..], y[1..], z[1..]);
      }
    }
  }

  /** The natural, case-insensitive comparison is a total preorder, so sorting by it
      is well defined up to the order of strings it deems equal. */
  lemma NatCaseLeIsTotalPreorder()
    ensures Sorting.TotalPreorder(NatCaseLe)
  {
    forall s: string {
      LexLeReflexive(Chunks(s));
    }
    forall s: string, t: string {
      LexLeTotal(Chunks(s), Chunks(t));
    }
    forall s: string, t: string, u: string | NatCaseLe(s, t) && NatCaseLe(t, u) {
      LexLeTransitive(Chunks(s), Chunks(t), Chunks(u));
    }
  }

  /** Two strings that differ only in the case of their letters are read as the
      same chunks, so the comparison cannot tell them apart. */
  lemma {:induction false} ChunksIgnoreCase(s: string, t: string)
    requires |s| == |t|
    requires forall i :: 0 <= i < |s| ==> Upper(s[i]) == Upper(t[i])
    ensures Chunks(s) == Chunks(t)
    decreases |s|
  {
    if s != [] {
      assert Upper(s[0]) == Upper(t[0]);
      if IsDigit(s[0]) {
        var n := DigitRun(s);
        DigitRunIgnoresCase(s, t);
        assert s[..n] == t[..n];
        ChunksIgnoreCase(s[n..], t[n..]);
      } else {
        ChunksIgnoreCase(s[1..], t[1..]);
      }
    }
  }

  lemma {:induction false} DigitRunIgnoresCase(s: string, t: string)
    requires |s| == |t|
    requires forall i :: 0 <= i < |s| ==> Upper(s[i]) == Upper(t[i])
    ensures DigitRun(s) == DigitRun(t)
    ensures forall k :: 0 <= k < DigitRun(s) ==> s[k] == t[k]
    decreases |s|
  {
    if s != [] {
      assert Upper(s[0]) == Upper(t[0]);
      DigitRunIgnoresCase(s[1..], t[1..]);
    }
  }

  lemma NatCaseLeIgnoresCase(s: string, t: string, u: string)
    requires |s| == |t|
    requires forall i :: 0 <= i < |s| ==> Upper(s[i]) == Upper(t[i])
    ensures NatCaseLe(s, u) == NatCaseLe(t, u)
    ensures NatCaseLe(u, s) == NatCaseLe(u, t)
  {
    ChunksIgnoreCase(s, t);
  }

  lemma {:induction false} LexLeCommonPrefix(p: seq<Chunk>, x: seq<Chunk>, y: seq<Chunk>)
    ensures LexLe(p + x, p + y) == LexLe(x, y)
    decreases |p|
  {
    if p != [] {
      assert (p + x)[1..] == p[1..] + x;
      assert (p + y)[1..] == p[1..] + y;
      LexLeCommonPrefix(p[1..], x, y);
    } else {
      assert p + x == x && p + y == y;
    }
  }

  /** "Item1", "item2" and "Item10" read as the letters of "item" followed by one number. */
  lemma ChunksOfItem1()
    ensures Chunks("Item1") == [Letter('I'), Letter('T'), Letter('E'), Letter('M'), Number(1)]
  {
  }

  lemma ChunksOfItem2()
    ensures Chunks("item2") == [Letter('I'), Letter('T'), Letter('E'), Letter('M'), Number(2)]
  {
  }

  lemma ChunksOfItem10()
    ensures Chunks("Item10") == [Letter('I'), Letter('T'), Letter('E'), Letter('M'), Number(10)]
  {
    assert DigitsValue("10") == 10 by { assert "10"[..1] == "1"; }
  }

  /** Digit runs compare by value and letters without regard to case. */
  lemma ItemsInNaturalOrder()
    ensures NatCaseLe("Item1", "item2") && !NatCaseLe("item2", "Item1")
    ensures NatCaseLe("item2", "Item10") && !NatCaseLe("Item10", "item2")
    ensures !NatCaseLe("Item10", "Item1")
  {
    var item := [Letter('I'), Letter('T'), Letter('E'), Letter('M')];
    ChunksOfItem1();
    ChunksOfItem2();
    ChunksOfItem10();
    LexLeCommonPrefix(item, [Number(1)], [Number(2)]);
    LexLeCommonPrefix(item, [Number(2)], [Number(1)]);
    LexLeCommonPrefix(item, [Number(2)], [Number(10)]);
    LexLeCommonPrefix(item, [Number(10)], [Number(2)]);
    LexLeCommonPrefix(item, [Number(10)], [Number(1)]);
    assert item + [Number(1)] == [Letter('I'), Letter('T'), Letter('E'), Letter('M'), Number(1)];
    assert item + [Number(2)] == [Letter('I'), Letter('T'), Letter('E'), Letter('M'), Number(2)];
    assert item + [Number(10)] == [Letter('I'), Letter('T'), Letter('E'), Letter('M'), Number(10)];
  }

  lemma ChunksOfWpLang()
    ensures Chunks("WPLANG") == [Letter('W'), Letter('P'), Letter('L')] + Chunks("ANG")
  {
    assert "WPLANG"[1..] == "PLANG" && "PLANG"[1..] == "LANG" && "LANG"[1..] == "ANG";
  }

  lemma ChunksOfWpDebug()
    ensures Chunks("WP_DEBUG") == [Letter('W'), Letter('P'), Letter('_')] + Chunks("DEBUG")
  {
    assert "WP_DEBUG"[1..] == "P_DEBUG" && "P_DEBUG"[1..] == "_DEBUG" && "_DEBUG"[1..] == "DEBUG";
  }

  /** Letters are compared in upper case, so '_' (between 'Z' and 'a') sorts after
      every letter: "WPLANG" comes strictly before "WP_DEBUG". */
  lemma UnderscoreAfterLetters()
    ensures NatCaseLe("WPLANG", "WP_DEBUG") && !NatCaseLe("WP_DEBUG", "WPLANG")
  {
    ChunksOfWpLang();
    ChunksOfWpDebug();
    var wp := [Letter('W'), Letter('P')];
    var lang := [Letter('L')] + Chunks("ANG");
    var debug := [Letter('_')] + Chunks("DEBUG");
    assert Chunks("WPLANG") == wp + lang;
    assert Chunks("WP_DEBUG") == wp + debug;
    assert LexLe(lang, debug) && !LexLe(debug, lang);
    LexLeCommonPrefix(wp, lang, debug);
    LexLeCommonPrefix(wp, debug, lang);
  }

  /** A bucket holding "Item10", "item2" and "Item1" has exactly one sorted order. */
  lemma SortedItems(r: seq<string>)
    requires Sorting.SortedBy(r, NatCaseLe)
    requires multiset(r) == multiset(["Item10", "item2", "Item1"])
    ensures r == ["Item1", "item2", "Item10"]
  {
    ItemsInNaturalOrder();
    NatCaseLeIsTotalPreorder();
    Sorting.SortedThree(r, NatCaseLe, "Item1", "item2", "Item10");
  }
}
