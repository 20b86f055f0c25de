/** `numberWithCommas(x)`: `x.toString().replace(/\B(?=(\d{3})+(?!\d))/g, ",")`.
    The pattern matches only the empty string, so the global replace visits
    every position of the decimal string once and inserts a comma at each
    position where the pattern matches. */
module Commas {

  predicate IsDigit(c: char)
  {
    '0' <= c <= '9'
  }

  /** The regular-expression word characters `[A-Za-z0-9_]`. */
  predicate IsWordChar(c: char)
  {
    IsDigit(c) || ('a' <= c <= 'z') || ('A' <= c <= 'Z') || c == '_'
  }

  predicate AllDigits(s: string)
  {
    forall i :: 0 <= i < |s| ==> IsDigit(s[i])
  }

  function DigitChar(d: nat): char
    requires d < 10
  {
    ('0' as int + d) as char
  }

  function DigitValue(c: char): nat
    requires IsDigit(c)
  {
    c as int - '0' as int
  }

  /** `x.toString()` for a natural number: its decimal digits, with no leading
      zero. (From 10^21 on, JavaScript writes exponent form instead.) */
  function Decimal(x: nat): (s: string)
    ensures 1 <= |s| && AllDigits(s)
    ensures s[0] == '0' <==> x == 0
    decreases x
  {
    if x < 10 then [DigitChar(x)] else Decimal(x / 10) + [DigitChar(x % 10)]
  }

  /** The number a digit string denotes. */
  ghost function Value(s: string): nat
    requires AllDigits(s)
  {
    if s == [] then 0 else Value(s[..|s| - 1]) * 10 + DigitValue(s[|s| - 1])
  }

  /** `\B` at position `p`: the characters on both sides of `p` are word
      characters, or neither is (the ends of the string count as non-word). */
  predicate NotWordBoundary(s: string, p: nat)
    requires p <= |s|
  {
    var before := 0 < p && IsWordChar(s[p - 1]);
    var after := p < |s| && IsWordChar(s[p]);
    before == after
  }

  /** `(\d{3})+(?!\d)` matched at the start of `t`: one or more groups of three
      digits followed by a non-digit or the end. */
  predicate DigitTriplesToEnd(t: string)
    decreases |t|
  {
    && 3 <= |t|
    && IsDigit(t[0]) && IsDigit(t[1]) && IsDigit(t[2])
    && ((|t| == 3 || !IsDigit(t[3])) || DigitTriplesToEnd(t[3..]))
  }

  /** The whole pattern `\B(?=(\d{3})+(?!\d))` matches at position `p`. */
  predicate CommaAt(s: string, p: nat)
    requires p <= |s|
  {
    NotWordBoundary(s, p) && DigitTriplesToEnd(s[p..])
  }

  /** What the replace writes at position `p`: a comma where the pattern matches. */
  function Mark(s: string, p: nat): string
    requires p <= |s|
  {
    if CommaAt(s, p) then "," else ""
  }

  /** The output of the global replace after it has scanned the first `q`
      characters: for each position, its mark and then the character itself. */
  function ReplaceUpTo(s: string, q: nat): string
    requires q <= |s|
  {
    if q == 0 then "" else ReplaceUpTo(s, q - 1) + Mark(s, q - 1) + [s[q - 1]]
  }

  /** The global replace: every character with its mark, then the mark at the
      end. On a digit string it only inserts commas, and on a non-empty one the
      result is grouped. */
  function Replace(s: string): (r: string)
    ensures AllDigits(s) ==> RemoveCommas(r) == s
    ensures AllDigits(s) && 1 <= |s| ==> Grouped(r)
  {
    var r := ReplaceUpTo(s, |s|) + Mark(s, |s|);
    assert AllDigits(s) ==> RemoveCommas(r) == s && (1 <= |s| ==> Grouped(r)) by {
      if AllDigits(s) {
        ReplaceIsGroup(s, |s|);
        CommaPositions(s, |s|);
        assert r == GroupUpTo(s, |s|);
        if |s| == 0 {
          assert r == "";
        } else {
          GroupGroups(s);
        }
      }
    }
    r
  }

  /** `numberWithCommas(x)`: the decimal digits of `x`, grouped by commas. */
  function NumberWithCommas(x: nat): (r: string)
    ensures Grouped(r)
    ensures RemoveCommas(r) == Decimal(x)
  {
    Replace(Decimal(x))
  }

  // ---------------------------------------------------------------------------
  // Reference: what a comma-grouped number looks like

  /** A leading group of one to three digits, then any number of groups of
      exactly three digits, each introduced by a comma. */
  ghost predicate Grouped(t: string)
    decreases |t|
  {
    if |t| <= 3 then 1 <= |t| && AllDigits(t)
    else |t| >= 5 && t[|t| - 4] == ',' && AllDigits(t[|t| - 3..]) && Grouped(t[..|t| - 4])
  }

  /** `t` with every comma deleted. */
  ghost function RemoveCommas(t: string): string
  {
    if t == [] then []
    else (if t[0] == ',' then [] else [t[0]]) + RemoveCommas(t[1..])
  }

  // ---------------------------------------------------------------------------
  // Proofs

  /** `toString` and back: the decimal digits denote the number. */
  lemma {:induction false} DecimalRoundTrip(x: nat)
    ensures Value(Decimal(x)) == x
    decreases x
  {
    var s := Decimal(x);
    if x >= 10 {
      DecimalRoundTrip(x / 10);
      assert s[..|s| - 1] == Decimal(x / 10);
    }
  }

  /** On digits, the look-ahead holds exactly when a positive multiple of
      three digits remains. */
  lemma {:induction false} TriplesOfDigits(t: string)
    requires AllDigits(t)
    ensures DigitTriplesToEnd(t) <==> (|t| >= 3 && |t| % 3 == 0)
    decreases |t|
  {
    if |t| > 3 {
      TriplesOfDigits(t[3..]);
    }
  }

  /** In a digit string, the pattern matches exactly at the interior positions
      with a positive multiple of three digits to their right. */
  lemma CommaPositions(s: string, p: nat)
    requires AllDigits(s) && p <= |s|
    ensures CommaAt(s, p) <==> (0 < p < |s| && (|s| - p) % 3 == 0)
  {
    TriplesOfDigits(s[p..]);
  }

  lemma {:induction false} RemoveCommasAppend(a: string, b: string)
    ensures RemoveCommas(a + b) == RemoveCommas(a) + RemoveCommas(b)
  {
    if a == [] {
      assert a + b == b;
    } else {
      var head := if a[0] == ',' then [] else [a[0]];
      calc {
        RemoveCommas(a + b);
        { assert (a + b)[0] == a[0]; }
        head + RemoveCommas((a + b)[1..]);
        { assert (a + b)[1..] == a[1..] + b; }
        head + RemoveCommas(a[1..] + b);
        { RemoveCommasAppend(a[1..], b); }
        head + (RemoveCommas(a[1..]) + RemoveCommas(b));
        (head + RemoveCommas(a[1..])) + RemoveCommas(b);
        RemoveCommas(a) + RemoveCommas(b);
      }
    }
  }

  lemma {:induction false} RemoveCommasOfDigits(s: string)
    requires AllDigits(s)
    ensures RemoveCommas(s) == s
  {
    if s != [] {
      RemoveCommasOfDigits(s[1..]);
      assert s == [s[0]] + s[1..];
    }
  }

  /** The replace over digits, with the pattern's matches worked out: a comma
      goes before every interior position with a positive multiple of three
      characters after it. */
  ghost function GroupUpTo(s: string, q: nat): string
    requires q <= |s|
  {
    if q == 0 then "" else GroupUpTo(s, q - 1) + GroupMark(|s|, q - 1) + [s[q - 1]]
  }

  /** The comma `GroupUpTo` writes before position `p` of an `n`-character string. */
  ghost function GroupMark(n: nat, p: nat): string
  {
    if 0 < p && (n - p) % 3 == 0 then "," else ""
  }

  /** On digits, the replace inserts its commas exactly where `GroupUpTo` does,
      and none at the end. */
  lemma {:induction false} ReplaceIsGroup(s: string, q: nat)
    requires AllDigits(s) && q <= |s|
    ensures ReplaceUpTo(s, q) == GroupUpTo(s, q)
  {
    if q > 0 {
      CommaPositions(s, q - 1);
      ReplaceIsGroup(s, q - 1);
    }
  }

  /** Up to three characters get no comma. */
  lemma {:induction false} GroupShort(s: string, q: nat)
    requires |s| <= 3 && q <= |s|
    ensures GroupUpTo(s, q) == s[..q]
  {
    if q > 0 {
      GroupShort(s, q - 1);
      assert s[..q] == s[..q - 1] + [s[q - 1]];
    }
  }

  /** Before the last three characters, the grouping of `s` writes what the
      grouping of `s` without them writes. */
  lemma {:induction false} GroupPrefix(s: string, q: nat)
    requires |s| > 3 && q <= |s| - 3
    ensures GroupUpTo(s, q) == GroupUpTo(s[..|s| - 3], q)
  {
    if q > 0 {
      GroupPrefix(s, q - 1);
      assert GroupMark(|s| - 3, q - 1) == GroupMark(|s|, q - 1);
      assert s[..|s| - 3][q - 1] == s[q - 1];
    }
  }

  /** The last three characters of a longer string get one comma in front. */
  lemma GroupSplit(s: string)
    requires |s| > 3
    ensures GroupUpTo(s, |s|) == GroupUpTo(s[..|s| - 3], |s| - 3) + "," + s[|s| - 3..]
  {
    var n := |s|;
    var g3, g2, g1 := GroupUpTo(s, n - 3), GroupUpTo(s, n - 2), GroupUpTo(s, n - 1);
    assert GroupMark(n, n - 3) == "," && GroupMark(n, n - 2) == "" && GroupMark(n, n - 1) == "";
    assert g2 == g3 + "," + [s[n - 3]];
    assert g1 == g2 + "" + [s[n - 2]];
    assert GroupUpTo(s, n) == g1 + "" + [s[n - 1]];
    GroupPrefix(s, n - 3);
    AppendLastThree(g3, g2, g1, GroupUpTo(s, n), s);
  }

  /** Three appends of single characters, written as one append of the last three. */
  lemma AppendLastThree(g3: string, g2: string, g1: string, g: string, s: string)
    requires |s| >= 3
    requires g2 == g3 + "," + [s[|s| - 3]]
    requires g1 == g2 + "" + [s[|s| - 2]]
    requires g == g1 + "" + [s[|s| - 1]]
    ensures g == g3 + "," + s[|s| - 3..]
  {
  }

  /** Deleting the commas of `head,last` when `last` is all digits. */
  lemma RemoveCommasJoin(head: string, last: string)
    requires AllDigits(last)
    ensures RemoveCommas(head + "," + last) == RemoveCommas(head) + last
  {
    assert RemoveCommas(head + ",") == RemoveCommas(head) by {
      RemoveCommasAppend(head, ",");
      assert RemoveCommas(",") == [] by {
        assert ","[1..] == [];
      }
      assert RemoveCommas(head) + [] == RemoveCommas(head);
    }
    RemoveCommasAppend(head + ",", last);
    RemoveCommasOfDigits(last);
  }

  /** A grouped string followed by a comma and three digits is grouped. */
  lemma GroupedJoin(head: string, last: string)
    requires Grouped(head) && AllDigits(last) && |last| == 3
    ensures Grouped(head + "," + last)
  {
    var t := head + "," + last;
    assert t[|t| - 4] == ',' && t[|t| - 3..] == last && t[..|t| - 4] == head;
  }

  /** On a non-empty digit string the grouping yields a grouped string whose
      digits, commas removed, are the input. */
  lemma {:induction false} GroupGroups(s: string)
    requires AllDigits(s) && 1 <= |s|
    ensures Grouped(GroupUpTo(s, |s|))
    ensures RemoveCommas(GroupUpTo(s, |s|)) == s
    decreases |s|
  {
    if |s| <= 3 {
      GroupShort(s, |s|);
      assert s[..|s|] == s;
      RemoveCommasOfDigits(s);
    } else {
      var init := s[..|s| - 3];
      var last := s[|s| - 3..];
      assert AllDigits(init) && AllDigits(last);
      GroupGroups(init);
      GroupSplit(s);
      assert s == init + last;
      JoinGroup(GroupUpTo(s, |s|), GroupUpTo(init, |init|), last, init);
    }
  }

  /** `head,last` with a grouped `head` and a three-digit `last` is grouped,
      and its digits are those of `head` followed by `last`. */
  lemma JoinGroup(t: string, head: string, last: string, digits: string)
    requires t == head + "," + last
    requires Grouped(head) && RemoveCommas(head) == digits
    requires AllDigits(last) && |last| == 3
    ensures Grouped(t) && RemoveCommas(t) == digits + last
  {
    GroupedJoin(head, last);
    RemoveCommasJoin(head, last);
  }

  /** A grouped string is determined by its digits. */
  lemma {:induction false} GroupedUnique(t: string, u: string)
    requires Grouped(t) && Grouped(u)
    requires RemoveCommas(t) == RemoveCommas(u)
    ensures t == u
    decreases |t|
  {
    GroupedShape(t);
    GroupedShape(u);
    if |t| > 3 && |u| > 3 {
      var ht, hu := t[..|t| - 4], u[..|u| - 4];
      GroupedHeads(t, u);
      GroupedUnique(ht, hu);
      assert t == ht + [','] + t[|t| - 3..];
      assert u == hu + [','] + u[|u| - 3..];
    } else if |t| <= 3 && |u| <= 3 {
      RemoveCommasOfDigits(t);
      RemoveCommasOfDigits(u);
    }
  }

  /** Two long grouped strings with the same digits have heads with the same
      digits and the same last group. */
  lemma GroupedHeads(t: string, u: string)
    requires Grouped(t) && Grouped(u) && |t| > 3 && |u| > 3
    requires RemoveCommas(t) == RemoveCommas(u)
    ensures RemoveCommas(t[..|t| - 4]) == RemoveCommas(u[..|u| - 4])
    ensures t[|t| - 3..] == u[|u| - 3..]
  {
    GroupedShape(t);
    GroupedShape(u);
    SplitLastThree(RemoveCommas(t[..|t| - 4]), t[|t| - 3..], RemoveCommas(u[..|u| - 4]), u[|u| - 3..]);
  }

  /** Equal strings that end in three characters each agree on both parts. */
  lemma SplitLastThree(a: string, x: string, b: string, y: string)
    requires |x| == 3 && |y| == 3 && a + x == b + y
    ensures a == b && x == y
  {
    assert a == (a + x)[..|a|];
    assert b == (b + y)[..|b|];
    assert x == (a + x)[|a|..];
    assert y == (b + y)[|b|..];
  }

  /** The digits of a grouped string: short strings are their own digits; a
      longer one is its head's digits followed by its last group. */
  lemma GroupedShape(t: string)
    requires Grouped(t)
    ensures |t| <= 3 ==> RemoveCommas(t) == t
    ensures |t| > 3 ==> RemoveCommas(t) == RemoveCommas(t[..|t| - 4]) + t[|t| - 3..]
    ensures |t| <= 3 <==> |RemoveCommas(t)| <= 3
    decreases |t|, 0
  {
    if |t| <= 3 {
      RemoveCommasOfDigits(t);
    } else {
      var head := t[..|t| - 4];
      assert t == head + "," + t[|t| - 3..];
      RemoveCommasJoin(head, t[|t| - 3..]);
      GroupedNonEmpty(head);
    }
  }

  lemma GroupedNonEmpty(t: string)
    requires Grouped(t)
    ensures 1 <= |RemoveCommas(t)|
    decreases |t|, 1
  {
    if |t| <= 3 {
      RemoveCommasOfDigits(t);
    } else {
      GroupedShape(t);
    }
  }

  /** `numberWithCommas(x)` is the only grouped string (first group of one to
      three digits, every later group of exactly three) whose digits, commas
      removed, are `x.toString()`. */
  lemma NumberWithCommasUnique(x: nat)
    ensures forall t :: Grouped(t) && RemoveCommas(t) == Decimal(x) ==> t == NumberWithCommas(x)
  {
    forall t | Grouped(t) && RemoveCommas(t) == Decimal(x)
      ensures t == NumberWithCommas(x)
    {
      GroupedUnique(t, NumberWithCommas(x));
    }
  }
}
