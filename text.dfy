/** String helpers that stand for Python's str operations used by the
    toolkit: ASCII character classes, lower()/upper(), sep.join(parts),
    s.split(d), endswith, str(int) and byte-wise text comparison. */
module Text {

  predicate IsUpper(c: char) { 'A' <= c <= 'Z' }
  predicate IsLowerLetter(c: char) { 'a' <= c <= 'z' }
  predicate IsDigit(c: char) { '0' <= c <= '9' }

  /** The regular-expression class \w, read with ASCII semantics. */
  predicate IsWordChar(c: char) { IsUpper(c) || IsLowerLetter(c) || IsDigit(c) || c == '_' }

  predicate AllDigits(s: string) { forall i :: 0 <= i < |s| ==> IsDigit(s[i]) }

  /** Python's str.lower() on one ASCII character. */
  function LowerChar(c: char): (r: char)
    ensures !IsUpper(r)
    ensures IsWordChar(r) <==> IsWordChar(c)
    ensures !IsUpper(c) ==> r == c
  {
    if IsUpper(c) then (c as int - 'A' as int + 'a' as int) as char else c
  }

  /** Python's str.upper() on one ASCII character. */
  function UpperChar(c: char): (r: char)
    ensures !IsLowerLetter(r)
    ensures IsWordChar(r) <==> IsWordChar(c)
    ensures !IsLowerLetter(c) ==> r == c
  {
    if IsLowerLetter(c) then (c as int - 'a' as int + 'A' as int) as char else c
  }

  function Lower(s: string): (r: string)
    ensures |r| == |s|
    ensures forall i :: 0 <= i < |s| ==> r[i] == LowerChar(s[i])
  {
    seq(|s|, i requires 0 <= i < |s| => LowerChar(s[i]))
  }

  function Upper(s: string): (r: string)
    ensures |r| == |s|
    ensures forall i :: 0 <= i < |s| ==> r[i] == UpperChar(s[i])
  {
    seq(|s|, i requires 0 <= i < |s| => UpperChar(s[i]))
  }

  /** A string in which no character is an upper-case letter is its own lower(). */
  lemma LowerOfLower(s: string)
    requires forall i :: 0 <= i < |s| ==> !IsUpper(s[i])
    ensures Lower(s) == s
  {
  }

  /** Python's sep.join(parts). */
  function Join(parts: seq<string>, sep: string): string
  {
    if |parts| == 0 then ""
    else if |parts| == 1 then parts[0]
    else parts[0] + sep + Join(parts[1..], sep)
  }

  /** Python's s.split(d) for a one-character separator: the pieces between
      occurrences of d, always at least one. */
  function Split(s: string, d: char): (parts: seq<string>)
    ensures |parts| >= 1
    decreases |s|
  {
    if |s| == 0 then [""]
    else
      var rest := Split(s[1..], d);
      if s[0] == d then [""] + rest else [[s[0]] + rest[0]] + rest[1..]
  }

  /** Number of occurrences of c in s. */
  function Count(s: string, c: char): nat
  {
    multiset(s)[c]
  }

  lemma CountConcat(a: string, b: string, c: char)
    ensures Count(a + b, c) == Count(a, c) + Count(b, c)
  {
  }

  lemma CountAbsent(s: string, c: char)
    ensures c !in s <==> Count(s, c) == 0
  {
  }

  /** No piece of a split contains the separator. */
  lemma {:induction false} SplitPiecesFree(s: string, d: char)
    ensures forall k :: 0 <= k < |Split(s, d)| ==> d !in Split(s, d)[k]
    decreases |s|
  {
    if |s| > 0 {
      SplitPiecesFree(s[1..], d);
    }
  }

  /** Joining the pieces of a split with its separator gives the string back. */
  lemma {:induction false} JoinSplit(s: string, d: char)
    ensures Join(Split(s, d), [d]) == s
    decreases |s|
  {
    if |s| > 0 {
      var rest := Split(s[1..], d);
      JoinSplit(s[1..], d);
      if s[0] == d {
        assert Split(s, d) == [""] + rest;
        assert ([""] + rest)[1..] == rest;
      } else {
        var parts := [[s[0]] + rest[0]] + rest[1..];
        assert Split(s, d) == parts;
        if |rest| == 1 {
          assert Join(rest, [d]) == rest[0];
        } else {
          assert Join(rest, [d]) == rest[0] + [d] + Join(rest[1..], [d]);
          assert parts[1..] == rest[1..];
        }
      }
    }
  }

  /** Splitting a join gives the pieces back when none contains the separator. */
  lemma {:induction false} SplitJoin(parts: seq<string>, d: char)
    requires |parts| >= 1
    requires forall k :: 0 <= k < |parts| ==> d !in parts[k]
    ensures Split(Join(parts, [d]), d) == parts
    decreases |parts|
  {
    if |parts| == 1 {
      SplitFree(parts[0], d);
    } else {
      SplitJoin(parts[1..], d);
      SplitAfter(parts[0], Join(parts[1..], [d]), d);
      assert [parts[0]] + parts[1..] == parts;
    }
  }

  /** A string without the separator splits into itself. */
  lemma {:induction false} SplitFree(s: string, d: char)
    requires d !in s
    ensures Split(s, d) == [s]
    decreases |s|
  {
    if |s| > 0 {
      SplitFree(s[1..], d);
      assert [s[0]] + s[1..] == s;
    }
  }

  /** Splitting a + [d] + b, with no d in a, puts a first and then the pieces of b. */
  lemma {:induction false} SplitAfter(a: string, b: string, d: char)
    requires d !in a
    ensures Split(a + [d] + b, d) == [a] + Split(b, d)
    decreases |a|
  {
    var s := a + [d] + b;
    if |a| == 0 {
      assert s == [d] + b;
      assert s[1..] == b;
    } else {
      assert s[1..] == a[1..] + [d] + b;
      SplitAfter(a[1..], b, d);
      assert [a[0]] + a[1..] == a;
    }
  }

  /** The number of pieces is one more than the number of separators. */
  lemma {:induction false} SplitLength(s: string, d: char)
    ensures |Split(s, d)| == Count(s, d) + 1
    decreases |s|
  {
    if |s| > 0 {
      SplitLength(s[1..], d);
      assert s == [s[0]] + s[1..];
    }
  }

  /** A string containing the separator splits into at least two pieces, the
      first of which is the text before the first separator. */
  lemma {:induction false} SplitFirst(s: string, d: char)
    requires d in s
    ensures |Split(s, d)| >= 2
    ensures var p := Split(s, d)[0]; |p| < |s| && s[..|p|] == p && s[|p|] == d
  {
    SplitLength(s, d);
    CountAbsent(s, d);
    var parts := Split(s, d);
    JoinSplit(s, d);
    assert s == parts[0] + [d] + Join(parts[1..], [d]);
  }

  /** The last piece of a split is the text after the last separator. */
  lemma {:induction false} SplitLast(s: string, d: char)
    requires d in s
    ensures var p := Split(s, d)[|Split(s, d)| - 1];
      |p| < |s| && s[|s| - |p|..] == p && s[|s| - |p| - 1] == d
  {
    SplitTwoOrMore(s, d);
    var parts := Split(s, d);
    JoinSplit(s, d);
    JoinLast(parts, [d]);
    var p := parts[|parts| - 1];
    var front :| s == front + [d] + p;
    LastAfter(front, d, p);
  }

  lemma SplitTwoOrMore(s: string, d: char)
    requires d in s
    ensures |Split(s, d)| >= 2
  {
    SplitLength(s, d);
    CountAbsent(s, d);
  }

  lemma LastAfter<T>(front: seq<T>, x: T, p: seq<T>)
    ensures var s := front + [x] + p; |p| < |s| && s[|s| - |p|..] == p && s[|s| - |p| - 1] == x
  {
  }

  /** A join of at least two pieces ends with the separator and the last piece. */
  lemma {:induction false} JoinLast(parts: seq<string>, sep: string)
    requires |parts| >= 2
    ensures exists front :: Join(parts, sep) == front + sep + parts[|parts| - 1]
    decreases |parts|
  {
    if |parts| == 2 {
      assert Join(parts[1..], sep) == parts[1];
      assert Join(parts, sep) == parts[0] + sep + parts[1];
    } else {
      JoinLast(parts[1..], sep);
      var front :| Join(parts[1..], sep) == front + sep + parts[1..][|parts[1..]| - 1];
      assert Join(parts, sep) == (parts[0] + sep + front) + sep + parts[|parts| - 1];
    }
  }

  /** Appending a separator and a piece free of it adds that piece last. */
  lemma {:induction false} SplitAppend(a: string, b: string, d: char)
    requires d !in b
    ensures Split(a + [d] + b, d) == Split(a, d) + [b]
    decreases |a|
  {
    var s := a + [d] + b;
    if |a| == 0 {
      assert s == [d] + b && s[1..] == b;
      SplitFree(b, d);
    } else {
      assert s[1..] == a[1..] + [d] + b;
      SplitAppend(a[1..], b, d);
      var front := Split(a[1..], d);
      var rest := front + [b];
      assert rest[0] == front[0];
      assert rest[1..] == front[1..] + [b];
    }
  }

  /** The first piece of a split is the text up to the first separator. */
  lemma SplitHead(a: string, tail: string, d: char)
    requires d !in a && (tail == [] || tail[0] == d)
    ensures Split(a + tail, d)[0] == a
  {
    if tail == [] {
      assert a + tail == a;
      SplitFree(a, d);
    } else {
      assert a + tail == a + [d] + tail[1..];
      SplitAfter(a, tail[1..], d);
    }
  }

  /** Python's s.endswith(t). */
  predicate EndsWith(s: string, t: string) { |t| <= |s| && s[|s| - |t|..] == t }

  predicate StartsWith(s: string, t: string) { |t| <= |s| && s[..|t|] == t }

  /** Text comparison character by character, as in PostgreSQL's "C" collation:
      a strict prefix sorts first. */
  predicate LexLess(a: string, b: string)
    decreases |a|
  {
    |b| > 0 && (|a| == 0 || a[0] < b[0] || (a[0] == b[0] && LexLess(a[1..], b[1..])))
  }

  predicate LexLe(a: string, b: string) { a == b || LexLess(a, b) }

  lemma {:induction false} LexLessIrreflexive(a: string)
    ensures !LexLess(a, a)
    decreases |a|
  {
    if |a| > 0 {
      LexLessIrreflexive(a[1..]);
    }
  }

  lemma {:induction false} LexLessTransitive(a: string, b: string, c: string)
    requires LexLess(a, b) && LexLess(b, c)
    ensures LexLess(a, c)
    decreases |a|
  {
    if |a| > 0 && a[0] == b[0] && b[0] == c[0] {
      LexLessTransitive(a[1..], b[1..], c[1..]);
    }
  }

  function DigitChar(n: nat): (c: char)
    requires n < 10
    ensures IsDigit(c)
  {
    ('0' as int + n) as char
  }

  /** str(n) of a non-negative integer. */
  function NatDecimal(n: nat): (r: string)
    ensures |r| >= 1 && AllDigits(r)
    decreases n
  {
    if n < 10 then [DigitChar(n)] else NatDecimal(n / 10) + [DigitChar(n % 10)]
  }

  /** str(n) of an integer: a minus sign for negatives, then the digits. */
  function Decimal(n: int): (r: string)
    ensures |r| >= 1
    ensures forall i :: 0 <= i < |r| ==> IsDigit(r[i]) || r[i] == '-'
    ensures n >= 0 <==> AllDigits(r)
  {
    if n < 0 then
      var r := "-" + NatDecimal(-n);
      assert !IsDigit(r[0]);
      r
    else NatDecimal(n)
  }
}
