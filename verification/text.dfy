/** String helpers shared by the model: decimal digits, zero padding,
    joining and splitting on separators, substring search and the
    per-character rewrites the program applies to text. */
module Text {

  // ---------------------------------------------------------------------
  // Decimal digits
  // ---------------------------------------------------------------------

  predicate IsDigit(c: char) {
    '0' <= c <= '9'
  }

  predicate AllDigits(s: string) {
    forall i :: 0 <= i < |s| ==> IsDigit(s[i])
  }

  function DigitValue(c: char): (d: nat)
    requires IsDigit(c)
    ensures d < 10
  {
    c as int - '0' as int
  }

  function DigitChar(d: nat): (c: char)
    requires d < 10
    ensures IsDigit(c) && DigitValue(c) == d
  {
    ('0' as int + d) as char
  }

  function Pow10(k: nat): (p: nat)
    ensures p >= 1
  {
    if k == 0 then 1 else 10 * Pow10(k - 1)
  }

  /** The number a string of decimal digits denotes (leading zeros allowed). */
  function DigitsValue(s: string): nat
    requires AllDigits(s)
  {
    if |s| == 0 then 0 else 10 * DigitsValue(s[..|s| - 1]) + DigitValue(s[|s| - 1])
  }

  /** Shortest decimal rendering of a natural number, as Java's
      `String.valueOf` writes it: no sign, no leading zeros. */
  function NatToString(n: nat): (s: string)
    ensures 1 <= |s| && AllDigits(s)
    ensures s[0] == '0' ==> n == 0
    decreases n
  {
    if n < 10 then [DigitChar(n)] else NatToString(n / 10) + [DigitChar(n % 10)]
  }

  /** Reading the rendering back yields the number. */
  lemma {:induction false} NatToStringRoundTrip(n: nat)
    ensures DigitsValue(NatToString(n)) == n
    decreases n
  {
    var s := NatToString(n);
    if n < 10 {
      assert s[..|s| - 1] == [];
    } else {
      var t := NatToString(n / 10);
      NatToStringRoundTrip(n / 10);
      assert s == t + [DigitChar(n % 10)];
      assert s[..|s| - 1] == t;
    }
  }

  /** A number below 10^k needs at most k digits. */
  lemma {:induction false} NatToStringLength(n: nat, k: nat)
    requires 1 <= k && n < Pow10(k)
    ensures |NatToString(n)| <= k
    decreases n
  {
    if n >= 10 {
      assert Pow10(1) == 10;
      assert k >= 2;
      assert n / 10 < Pow10(k - 1);
      NatToStringLength(n / 10, k - 1);
    }
  }

  function Zeros(k: nat): (z: string)
    ensures |z| == k && AllDigits(z)
    ensures forall i :: 0 <= i < k ==> z[i] == '0'
  {
    seq(k, _ => '0')
  }

  /** Zeros in front of a digit string do not change its value. */
  lemma {:induction false} LeadingZerosValue(k: nat, s: string)
    requires AllDigits(s)
    ensures AllDigits(Zeros(k) + s) && DigitsValue(Zeros(k) + s) == DigitsValue(s)
    decreases |s|, k
  {
    var z := Zeros(k) + s;
    if |s| == 0 {
      assert z == Zeros(k);
      if k > 0 {
        assert z[..|z| - 1] == Zeros(k - 1) + s;
        LeadingZerosValue(k - 1, s);
      }
    } else {
      var t := s[..|s| - 1];
      assert z[..|z| - 1] == Zeros(k) + t;
      LeadingZerosValue(k, t);
    }
  }

  /** Java's `%0<width>d` of a non-negative number: the decimal digits,
      padded on the left with zeros up to `width` characters. */
  function PadLeft(n: nat, width: nat): (s: string)
    ensures AllDigits(s) && DigitsValue(s) == n
    ensures |s| == if |NatToString(n)| < width then width else |NatToString(n)|
  {
    var digits := NatToString(n);
    NatToStringRoundTrip(n);
    if |digits| < width then
      LeadingZerosValue(width - |digits|, digits);
      Zeros(width - |digits|) + digits
    else
      digits
  }

  /** A number that fits in `width` digits is padded to exactly `width`. */
  lemma PadLeftExact(n: nat, width: nat)
    requires 1 <= width && n < Pow10(width)
    ensures |PadLeft(n, width)| == width
  {
    NatToStringLength(n, width);
  }

  // ---------------------------------------------------------------------
  // Counting, joining and splitting
  // ---------------------------------------------------------------------

  /** Number of occurrences of `c` in `s`. */
  function Count(s: string, c: char): (k: nat)
    ensures k <= |s|
    ensures k == 0 <==> c !in s
  {
    if |s| == 0 then 0 else (if s[0] == c then 1 else 0) + Count(s[1..], c)
  }

  lemma {:induction false} CountAppend(a: string, b: string, c: char)
    ensures Count(a + b, c) == Count(a, c) + Count(b, c)
    decreases |a|
  {
    if |a| > 0 {
      assert (a + b)[1..] == a[1..] + b;
      CountAppend(a[1..], b, c);
    } else {
      assert a + b == b;
    }
  }

  /** The parts, in order, with `sep` between consecutive ones. */
  function Join(parts: seq<string>, sep: string): string
  {
    if |parts| == 0 then ""
    else if |parts| == 1 then parts[0]
    else parts[0] + sep + Join(parts[1..], sep)
  }

  /** Appending one more part adds one separator and the part at the end. */
  lemma {:induction false} JoinSnoc(parts: seq<string>, last: string, sep: string)
    requires 1 <= |parts|
    ensures Join(parts + [last], sep) == Join(parts, sep) + sep + last
    decreases |parts|
  {
    var all := parts + [last];
    if |parts| == 1 {
      assert all[1..] == [last];
    } else {
      assert all[1..] == parts[1..] + [last];
      JoinSnoc(parts[1..], last, sep);
    }
  }

  /** Splits `s` at every occurrence of `c`, keeping empty pieces: the
      pieces between separators, so there is always one more piece than
      there are separators. */
  function SplitOn(s: string, c: char): (parts: seq<string>)
    ensures |parts| == Count(s, c) + 1
    ensures forall i :: 0 <= i < |parts| ==> c !in parts[i]
    decreases |s|
  {
    if |s| == 0 then [""]
    else
      var rest := SplitOn(s[1..], c);
      if s[0] == c then [""] + rest
      else [[s[0]] + rest[0]] + rest[1..]
  }

  /** A string without the separator is a single piece. */
  lemma {:induction false} SplitOnFree(s: string, c: char)
    requires c !in s
    ensures SplitOn(s, c) == [s]
    decreases |s|
  {
    if |s| > 0 {
      SplitOnFree(s[1..], c);
      assert [s[0]] + s[1..] == s;
    }
  }

  /** A separator-free head followed by a separator splits off as one piece. */
  lemma {:induction false} SplitOnHead(head: string, c: char, rest: string)
    requires c !in head
    ensures SplitOn(head + [c] + rest, c) == [head] + SplitOn(rest, c)
    decreases |head|
  {
    var s := head + [c] + rest;
    if |head| == 0 {
      assert s[1..] == rest;
    } else {
      assert s[1..] == head[1..] + [c] + rest;
      SplitOnHead(head[1..], c, rest);
      assert [head[0]] + head[1..] == head;
    }
  }

  /** Splitting undoes joining, when no part contains the separator. */
  lemma {:induction false} SplitJoin(parts: seq<string>, c: char)
    requires 1 <= |parts|
    requires forall i :: 0 <= i < |parts| ==> c !in parts[i]
    ensures SplitOn(Join(parts, [c]), c) == parts
    decreases |parts|
  {
    if |parts| == 1 {
      SplitOnFree(parts[0], c);
    } else {
      SplitJoin(parts[1..], c);
      SplitOnHead(parts[0], c, Join(parts[1..], [c]));
      assert [parts[0]] + parts[1..] == parts;
    }
  }

  /** A part in front of a non-empty list is followed by a separator. */
  lemma JoinCons(first: string, rest: seq<string>, sep: string)
    requires 1 <= |rest|
    ensures Join([first] + rest, sep) == first + sep + Join(rest, sep)
  {
    assert ([first] + rest)[1..] == rest;
  }

  /** Gluing a text onto the first part glues it onto the joined text. */
  lemma JoinGlue(head: string, rest: seq<string>, sep: string)
    requires 1 <= |rest|
    ensures Join([head + rest[0]] + rest[1..], sep) == head + Join(rest, sep)
  {
    if |rest| >= 2 {
      JoinCons(head + rest[0], rest[1..], sep);
      JoinCons(rest[0], rest[1..], sep);
      assert [rest[0]] + rest[1..] == rest;
    } else {
      assert rest[1..] == [];
    }
  }

  /** Joining undoes splitting: the pieces are exactly the text between
      the separators. */
  lemma {:induction false} JoinSplit(s: string, c: char)
    ensures Join(SplitOn(s, c), [c]) == s
    decreases |s|
  {
    if |s| > 0 {
      var rest := SplitOn(s[1..], c);
      JoinSplit(s[1..], c);
      assert [s[0]] + s[1..] == s;
      if s[0] == c {
        JoinCons("", rest, [c]);
      } else {
        JoinGlue([s[0]], rest, [c]);
      }
    }
  }

  /** Joining two or more parts with a one-character separator puts the
      separator in the result; a single separator-free part does not. */
  lemma SeparatorPresence(parts: seq<string>, c: char)
    requires 1 <= |parts|
    requires forall i :: 0 <= i < |parts| ==> c !in parts[i]
    ensures c in Join(parts, [c]) <==> |parts| >= 2
  {
    if |parts| >= 2 {
      var j := Join(parts, [c]);
      assert j[|parts[0]|] == c;
    }
  }

  // ---------------------------------------------------------------------
  // Substring search
  // ---------------------------------------------------------------------

  predicate StartsWith(s: string, prefix: string) {
    |prefix| <= |s| && s[..|prefix|] == prefix
  }

  /** `part` occurs in `s` starting at index `i`. */
  predicate OccursAt(s: string, part: string, i: int) {
    0 <= i && i + |part| <= |s| && s[i..i + |part|] == part
  }

  /** Java's `String.contains`, written as a left-to-right scan. */
  predicate Contains(s: string, part: string)
    decreases |s|
  {
    StartsWith(s, part) || (|s| > 0 && Contains(s[1..], part))
  }

  /** The scan finds `part` exactly when it occurs at some index. */
  lemma {:induction false} ContainsAt(s: string, part: string)
    ensures Contains(s, part) <==> exists i :: OccursAt(s, part, i)
    decreases |s|
  {
    if StartsWith(s, part) {
      assert OccursAt(s, part, 0);
    } else if |s| == 0 {
      assert forall i :: OccursAt(s, part, i) ==> i == 0;
    } else {
      ContainsAt(s[1..], part);
      if Contains(s[1..], part) {
        var j :| OccursAt(s[1..], part, j);
        assert s[j + 1..j + 1 + |part|] == s[1..][j..j + |part|];
        assert OccursAt(s, part, j + 1);
      }
      if exists i :: OccursAt(s, part, i) {
        var i :| OccursAt(s, part, i);
        assert !OccursAt(s, part, 0);
        assert s[1..][i - 1..i - 1 + |part|] == s[i..i + |part|];
        assert OccursAt(s[1..], part, i - 1);
      }
    }
  }

  /** `part` cannot occur in `s` when one of its characters does not. */
  lemma CharNeeded(s: string, part: string, j: nat)
    requires j < |part| && part[j] !in s
    ensures !Contains(s, part)
  {
    ContainsAt(s, part);
    forall i | 0 <= i && i + |part| <= |s|
      ensures !OccursAt(s, part, i)
    {
      assert s[i + j] in s;
      assert s[i..i + |part|][j] == s[i + j];
    }
  }

  /** A text found at a known index is contained. */
  lemma FoundAt(s: string, part: string, i: int)
    requires OccursAt(s, part, i)
    ensures Contains(s, part)
  {
    ContainsAt(s, part);
  }

  /** A text whose first character is absent from `pre`, whose characters
      are all absent from `post`, and which `mid` does not contain, is not
      contained in `pre + mid + post` either. */
  lemma ContainsFramed(pre: string, mid: string, post: string, part: string)
    requires 1 <= |part| && part[0] !in pre
    requires forall j :: 0 <= j < |post| ==> post[j] !in part
    requires !Contains(mid, part)
    ensures !Contains(pre + mid + post, part)
  {
    var s := pre + mid + post;
    ContainsAt(s, part);
    ContainsAt(mid, part);
    forall i | 0 <= i && i + |part| <= |s|
      ensures !OccursAt(s, part, i)
    {
      if i < |pre| {
        assert s[i..i + |part|][0] == pre[i];
        assert pre[i] in pre;
      } else if i + |part| <= |pre| + |mid| {
        var k := i - |pre|;
        assert s[|pre|..|pre| + |mid|] == mid;
        assert s[i..i + |part|] == s[|pre|..|pre| + |mid|][k..k + |part|];
        assert !OccursAt(mid, part, k);
      } else {
        var k := if i < |pre| + |mid| then |pre| + |mid| else i;
        assert s[k] == post[k - |pre| - |mid|];
        assert s[i..i + |part|][k - i] == s[k];
        assert part[k - i] in part;
      }
    }
  }

  // ---------------------------------------------------------------------
  // Character rewrites
  // ---------------------------------------------------------------------

  /** Java's `String.replace(char, char)`: every `from` becomes `to`. */
  function ReplaceChar(s: string, from: char, to: char): (r: string)
    ensures |r| == |s|
    ensures forall i :: 0 <= i < |s| && s[i] == from ==> r[i] == to
    ensures forall i :: 0 <= i < |s| && s[i] != from ==> r[i] == s[i]
    decreases |s|
  {
    if |s| == 0 then ""
    else [if s[0] == from then to else s[0]] + ReplaceChar(s[1..], from, to)
  }

  /** Java's `String.replace("-", "")` for a one-character target: every
      occurrence of `c` is dropped, everything else kept in order. */
  function RemoveChar(s: string, c: char): (r: string)
    ensures c !in r
    ensures |r| <= |s|
    decreases |s|
  {
    if |s| == 0 then ""
    else if s[0] == c then RemoveChar(s[1..], c)
    else [s[0]] + RemoveChar(s[1..], c)
  }

  lemma {:induction false} RemoveCharAppend(a: string, b: string, c: char)
    ensures RemoveChar(a + b, c) == RemoveChar(a, c) + RemoveChar(b, c)
    decreases |a|
  {
    if |a| == 0 {
      assert a + b == b;
    } else {
      var ab := a + b;
      assert ab[0] == a[0] && ab[1..] == a[1..] + b;
      RemoveCharAppend(a[1..], b, c);
      var x, y := RemoveChar(a[1..], c), RemoveChar(b, c);
      if a[0] == c {
        assert RemoveChar(ab, c) == x + y;
      } else {
        assert RemoveChar(ab, c) == [a[0]] + (x + y);
        assert [a[0]] + (x + y) == ([a[0]] + x) + y;
      }
    }
  }

  lemma {:induction false} RemoveCharAbsent(s: string, c: char)
    requires c !in s
    ensures RemoveChar(s, c) == s
    decreases |s|
  {
    if |s| > 0 {
      RemoveCharAbsent(s[1..], c);
      assert [s[0]] + s[1..] == s;
    }
  }

  /** ASCII lower-casing; other characters are unchanged. */
  function LowerAscii(c: char): char
  {
    if 'A' <= c <= 'Z' then (c as int + 32) as char else c
  }
}
