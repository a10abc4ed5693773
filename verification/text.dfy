/** Text helpers shared by the grid readers and writers: decimal rendering as
    `short.ToString()` produces it, the digit parsers `int.Parse` and
    `short.Parse` stand for, and splitting on a separator character. */
module Text {
  import opened Options

  predicate IsDigit(c: char)
  {
    '0' <= c <= '9'
  }

  predicate AllDigits(s: string)
  {
    forall i :: 0 <= i < |s| ==> IsDigit(s[i])
  }

  function DigitValue(c: char): (d: nat)
    requires IsDigit(c)
    ensures d < 10
  {
    c as int - '0' as int
  }

  function DigitChar(d: nat): (c: char)
    requires d < 10
    ensures IsDigit(c) && DigitValue(c) == d
  {
    (d + '0' as int) as char
  }

  /** The decimal digits of n, most significant first, without leading zeros. */
  function NatDigits(n: nat): (s: string)
    ensures |s| >= 1 && AllDigits(s)
    ensures n > 0 ==> s[0] != '0'
  {
    if n < 10 then [DigitChar(n)] else NatDigits(n / 10) + [DigitChar(n % 10)]
  }

  /** The number a string of decimal digits denotes. */
  function DigitsValue(s: string): nat
    requires AllDigits(s)
  {
    if |s| == 0 then 0 else DigitsValue(s[..|s| - 1]) * 10 + DigitValue(s[|s| - 1])
  }

  /** Reading back the digits of n gives n. */
  lemma {:induction false} DigitsRoundTrip(n: nat)
    ensures DigitsValue(NatDigits(n)) == n
  {
    if n >= 10 {
      var s := NatDigits(n);
      assert s[..|s| - 1] == NatDigits(n / 10);
      DigitsRoundTrip(n / 10);
    }
  }

  /** `ToString()` of an integer: a minus sign before the digits of |v| when v < 0. */
  function Decimal(v: int): (s: string)
    ensures |s| >= 1 && (s[0] == '-' <==> v < 0)
    ensures v >= 0 ==> AllDigits(s)
    ensures forall t :: 0 < t < |s| ==> IsDigit(s[t])
  {
    if v < 0 then "-" + NatDigits(-v) else NatDigits(v)
  }

  /** An optional minus sign followed by at least one digit, nothing else. */
  function ParseInt(s: string): (r: Option<int>)
    ensures r.Some? ==> |s| >= 1
  {
    if |s| >= 2 && s[0] == '-' && AllDigits(s[1..]) then Some(0 - DigitsValue(s[1..]) as int)
    else if |s| >= 1 && AllDigits(s) then Some(DigitsValue(s))
    else None
  }

  /** What `ToString()` writes, `ParseInt` reads back. */
  lemma ParseDecimal(v: int)
    ensures ParseInt(Decimal(v)) == Some(v)
  {
    var s := Decimal(v);
    if v < 0 {
      var d := NatDigits(-v);
      assert s[1..] == d;
      DigitsRoundTrip(-v);
    } else {
      DigitsRoundTrip(v);
    }
  }

  // ------------------------------------------------------- short.Parse

  /** The white space `NumberStyles.Integer` lets surround a number:
      U+0009 to U+000D and U+0020. */
  predicate IsWhite(c: char)
  {
    c == ' ' || '\t' <= c <= '\r'
  }

  function TrimStart(s: string): (t: string)
    ensures |t| <= |s| && (|t| > 0 ==> !IsWhite(t[0]))
    ensures t == s[|s| - |t|..]
  {
    if |s| > 0 && IsWhite(s[0]) then TrimStart(s[1..]) else s
  }

  function TrimEnd(s: string): (t: string)
    ensures |t| <= |s| && (|t| > 0 ==> !IsWhite(t[|t| - 1]))
    ensures t == s[..|t|]
  {
    if |s| > 0 && IsWhite(s[|s| - 1]) then TrimEnd(s[..|s| - 1]) else s
  }

  const ShortMin: int := -32768
  const ShortMax: int := 32767

  /** `short.Parse(s)`: optional surrounding white space, an optional sign,
      at least one digit, and a value that fits in 16 bits; anything else
      throws, which is `None` here. */
  function ParseShort(s: string): (r: Option<int>)
    ensures r.Some? ==> ShortMin <= r.value <= ShortMax
  {
    var t := TrimEnd(TrimStart(s));
    var v :=
      if |t| >= 2 && t[0] == '-' && AllDigits(t[1..]) then Some(0 - DigitsValue(t[1..]) as int)
      else if |t| >= 2 && t[0] == '+' && AllDigits(t[1..]) then Some(DigitsValue(t[1..]))
      else if |t| >= 1 && AllDigits(t) then Some(DigitsValue(t))
      else None;
    if v.Some? && ShortMin <= v.value <= ShortMax then v else None
  }

  /** Every 16-bit value survives `ToString()` followed by `short.Parse`. */
  lemma ParseShortDecimal(v: int)
    requires ShortMin <= v <= ShortMax
    ensures ParseShort(Decimal(v)) == Some(v)
  {
    var s := Decimal(v);
    assert TrimStart(s) == s by {
      assert !IsWhite(s[0]) by {
        if v >= 0 {
          assert IsDigit(s[0]);
        }
      }
    }
    assert TrimEnd(s) == s by {
      if v < 0 {
        assert s[|s| - 1] == NatDigits(-v)[|NatDigits(-v)| - 1];
        assert IsDigit(s[|s| - 1]);
      } else {
        assert IsDigit(s[|s| - 1]);
      }
    }
    ParseDecimal(v);
  }

  // ----------------------------------------------------------- splitting

  /** The first index holding c, or |s| when there is none. */
  function FindChar(s: string, c: char): (i: nat)
    ensures i <= |s| && (i < |s| ==> s[i] == c)
    ensures c !in s[..i]
  {
    if |s| == 0 || s[0] == c then 0
    else
      var i := 1 + FindChar(s[1..], c);
      assert s[..i] == [s[0]] + s[1..][..i - 1];
      i
  }

  /** The fields of s between separators, as the hand-written splitter of
      V2.cs cuts them: a separator ends a field, a final separator opens no
      new one, and the empty text has no field at all. */
  function SplitRef(s: string, sep: char): (parts: seq<string>)
    ensures forall k :: 0 <= k < |parts| ==> sep !in parts[k]
    decreases |s|
  {
    if |s| == 0 then []
    else
      var i := FindChar(s, sep);
      if i == |s| then [s] else [s[..i]] + SplitRef(s[i + 1..], sep)
  }

  /** Every field followed by the separator: the shape of a CSV row. */
  function Terminated(parts: seq<string>, sep: char): (s: string)
    ensures |s| >= |parts|
  {
    if |parts| == 0 then "" else parts[0] + [sep] + Terminated(parts[1..], sep)
  }

  /** The fields with the separator between them, as `String.Join` writes. */
  function Join(parts: seq<string>, sep: string): string
  {
    if |parts| == 0 then ""
    else if |parts| == 1 then parts[0]
    else parts[0] + sep + Join(parts[1..], sep)
  }

  /** In `a + [c] + b` with no c in a, the first c is the one after a. */
  lemma FindCharAfter(a: string, c: char, b: string)
    requires c !in a
    ensures FindChar(a + [c] + b, c) == |a|
  {
    var s := a + [c] + b;
    var i := FindChar(s, c);
    assert s[..|a|] == a;
    assert s[|a|] == c;
  }

  /** A field free of the separator, then the separator, then anything:
      the split yields that field and then the split of the rest. */
  lemma SplitCons(head: string, sep: char, rest: string)
    requires sep !in head
    ensures SplitRef(head + [sep] + rest, sep) == [head] + SplitRef(rest, sep)
  {
    var s := head + [sep] + rest;
    FindCharAfter(head, sep, rest);
    assert s[..|head|] == head;
    assert s[|head| + 1..] == rest;
  }

  /** Splitting a separator-terminated text gives back its fields. */
  lemma {:induction false} SplitTerminated(parts: seq<string>, sep: char)
    requires forall k :: 0 <= k < |parts| ==> sep !in parts[k]
    ensures SplitRef(Terminated(parts, sep), sep) == parts
  {
    if |parts| > 0 {
      SplitCons(parts[0], sep, Terminated(parts[1..], sep));
      SplitTerminated(parts[1..], sep);
      assert parts == [parts[0]] + parts[1..];
    }
  }

  /** A text free of the separator is a single field. */
  lemma SplitSingle(s: string, sep: char)
    requires |s| > 0 && sep !in s
    ensures SplitRef(s, sep) == [s]
  {
    forall j | 0 <= j < |s|
      ensures s[j] != sep
    {
      assert s[j] in s;
    }
  }

  /** Splitting a joined list of non-empty-ended fields gives them back. */
  lemma {:induction false} SplitJoin(parts: seq<string>, sep: char)
    requires |parts| > 0 && |parts[|parts| - 1]| > 0
    requires forall k :: 0 <= k < |parts| ==> sep !in parts[k]
    ensures SplitRef(Join(parts, [sep]), sep) == parts
  {
    if |parts| == 1 {
      SplitSingle(parts[0], sep);
    } else {
      var tail := parts[1..];
      assert tail[|tail| - 1] == parts[|parts| - 1];
      SplitCons(parts[0], sep, Join(tail, [sep]));
      SplitJoin(tail, sep);
      assert parts == [parts[0]] + tail;
    }
  }

  /** Where s has a separator at i, s is the text before it, the separator
      and the text after it. */
  lemma CutAt(s: string, i: int)
    requires 0 <= i < |s|
    ensures s == s[..i] + [s[i]] + s[i + 1..]
  {
  }

  /** Joining the fields of a text that does not end in the separator
      rebuilds the text. */
  lemma {:induction false} JoinSplit(s: string, sep: char)
    requires |s| > 0 && s[|s| - 1] != sep
    ensures Join(SplitRef(s, sep), [sep]) == s
    decreases |s|
  {
    var i := FindChar(s, sep);
    if i < |s| {
      var head, tail := s[..i], s[i + 1..];
      assert |tail| > 0 && tail[|tail| - 1] == s[|s| - 1];
      JoinSplit(tail, sep);
      SplitRefAt(s, sep);
      JoinCons(head, SplitRef(tail, sep), [sep]);
      CutAt(s, i);
    }
  }

  /** One unfolding of the split at the first separator. */
  lemma SplitRefAt(s: string, sep: char)
    requires FindChar(s, sep) < |s|
    ensures var i := FindChar(s, sep);
            SplitRef(s, sep) == [s[..i]] + SplitRef(s[i + 1..], sep) &&
            (|s[i + 1..]| > 0 ==> |SplitRef(s[i + 1..], sep)| > 0)
  {
  }

  /** One unfolding of the join in front of a non-empty rest. */
  lemma JoinCons(head: string, rest: seq<string>, sep: string)
    requires |rest| > 0
    ensures Join([head] + rest, sep) == head + sep + Join(rest, sep)
  {
    assert ([head] + rest)[1..] == rest;
  }

  /** Terminating the fields of a text that ends in the separator (or is
      empty) rebuilds the text. */
  lemma {:induction false} TerminatedSplit(s: string, sep: char)
    requires |s| == 0 || s[|s| - 1] == sep
    ensures Terminated(SplitRef(s, sep), sep) == s
    decreases |s|
  {
    if |s| > 0 {
      var i := FindChar(s, sep);
      assert i < |s|;
      var head, tail := s[..i], s[i + 1..];
      assert |tail| == 0 || tail[|tail| - 1] == sep;
      TerminatedSplit(tail, sep);
      var parts := [head] + SplitRef(tail, sep);
      assert SplitRef(s, sep) == parts;
      assert parts[0] == head && parts[1..] == SplitRef(tail, sep);
      CutAt(s, i);
    }
  }

  /** `String.Split(sep)`: every separator cuts, so k separators give k + 1
      fields, empty ones included. */
  function StdSplit(s: string, sep: char): (parts: seq<string>)
    ensures |parts| >= 1
    ensures forall k :: 0 <= k < |parts| ==> sep !in parts[k]
    decreases |s|
  {
    var i := FindChar(s, sep);
    if i == |s| then [s] else [s[..i]] + StdSplit(s[i + 1..], sep)
  }

  /** One unfolding of `String.Split` at the first separator. */
  lemma StdSplitAt(s: string, sep: char)
    requires FindChar(s, sep) < |s|
    ensures var i := FindChar(s, sep);
            StdSplit(s, sep) == [s[..i]] + StdSplit(s[i + 1..], sep)
  {
  }

  /** The hand-written splitter is `String.Split` with the final field
      dropped when it is empty. */
  lemma {:induction false} SplitRefIsTrimmedStdSplit(s: string, sep: char)
    ensures var t := StdSplit(s, sep);
            SplitRef(s, sep) == if t[|t| - 1] == "" then t[..|t| - 1] else t
    decreases |s|
  {
    var i := FindChar(s, sep);
    if i < |s| {
      var head, tail := s[..i], s[i + 1..];
      SplitRefIsTrimmedStdSplit(tail, sep);
      var t := StdSplit(tail, sep);
      StdSplitAt(s, sep);
      SplitRefAt(s, sep);
      if |tail| == 0 {
        assert t == [""];
      }
      if t[|t| - 1] == "" {
        assert ([head] + t)[..|t|] == [head] + t[..|t| - 1];
      }
    }
  }

  /** `String.Split` cuts a joined text back into the fields it was joined
      from, empty ones included. */
  lemma {:induction false} StdSplitJoin(parts: seq<string>, sep: char)
    requires |parts| > 0
    requires forall k :: 0 <= k < |parts| ==> sep !in parts[k]
    ensures StdSplit(Join(parts, [sep]), sep) == parts
    decreases |parts|
  {
    if |parts| == 1 {
      assert FindChar(parts[0], sep) == |parts[0]|;
    } else {
      var head, tail := parts[0], parts[1..];
      var rest := Join(tail, [sep]);
      var s := head + [sep] + rest;
      assert parts == [head] + tail;
      JoinCons(head, tail, [sep]);
      FindCharAfter(head, sep, rest);
      StdSplitAt(s, sep);
      assert s[..|head|] == head && s[|head| + 1..] == rest;
      StdSplitJoin(tail, sep);
    }
  }
}
