/**
 * The java.lang.String and java.lang.Integer operations that the CSV reader and the
 * Cut prompt rely on: String.split with a one-character separator, String.trim,
 * String.toUpperCase (ASCII letters only) and Integer.parseInt in radix 10.
 */
module JavaText {
  import opened Wrappers

  // ---------------------------------------------------------------- split

  /** Every field of `s` between occurrences of `sep`, empty fields included. */
  function Pieces(s: string, sep: char): (r: seq<string>)
    ensures |r| >= 1
    ensures forall k :: 0 <= k < |r| ==> sep !in r[k]
  {
    if s == [] then [""]
    else
      var rest := Pieces(s[1..], sep);
      if s[0] == sep then [""] + rest
      else [[s[0]] + rest[0]] + rest[1..]
  }

  /** Glues fields back together with `sep` between neighbours. */
  function Join(fields: seq<string>, sep: char): string
    requires |fields| >= 1
  {
    if |fields| == 1 then fields[0] else fields[0] + [sep] + Join(fields[1..], sep)
  }

  /** Splitting on `sep` and joining with `sep` gives back the original text. */
  lemma {:induction false} JoinPieces(s: string, sep: char)
    ensures Join(Pieces(s, sep), sep) == s
  {
    if s != [] {
      var rest := Pieces(s[1..], sep);
      JoinPieces(s[1..], sep);
      if s[0] != sep {
        if |rest| == 1 {
          assert Pieces(s, sep) == [[s[0]] + rest[0]];
        } else {
          assert Pieces(s, sep)[1..] == rest[1..];
          assert Join(rest, sep) == rest[0] + [sep] + Join(rest[1..], sep);
        }
      }
    }
  }

  /** The number of occurrences of `c` in `s`. */
  function Count(s: string, c: char): nat
  {
    if s == [] then 0 else (if s[0] == c then 1 else 0) + Count(s[1..], c)
  }

  /** A text with n separators has n + 1 pieces. */
  lemma {:induction false} PiecesCount(s: string, sep: char)
    ensures |Pieces(s, sep)| == Count(s, sep) + 1
  {
    if s != [] {
      PiecesCount(s[1..], sep);
    }
  }

  /** Drops the empty strings at the end of `fields`, as String.split does. */
  function DropTrailingEmpty(fields: seq<string>): (r: seq<string>)
    ensures |r| <= |fields| && r == fields[..|r|]
    ensures r == [] || r[|r| - 1] != ""
    ensures forall k :: |r| <= k < |fields| ==> fields[k] == ""
  {
    if fields == [] then []
    else if fields[|fields| - 1] == "" then DropTrailingEmpty(fields[..|fields| - 1])
    else fields
  }

  /**
   * line.split(",") for a one-character separator: the pieces without trailing empty
   * strings, except that a text without any separator comes back whole (so "" gives [""]).
   */
  function Split(s: string, sep: char): (r: seq<string>)
    ensures forall k :: 0 <= k < |r| ==> sep !in r[k]
    ensures sep !in s ==> r == [s]
    ensures |r| <= Count(s, sep) + 1
  {
    PiecesCount(s, sep);
    if sep !in s then [s] else DropTrailingEmpty(Pieces(s, sep))
  }

  /** What Split keeps: a prefix of the pieces, and everything it drops is empty. */
  lemma SplitKeepsLeadingPieces(s: string, sep: char)
    requires sep in s
    ensures |Split(s, sep)| <= |Pieces(s, sep)|
    ensures Split(s, sep) == Pieces(s, sep)[..|Split(s, sep)|]
    ensures forall k :: |Split(s, sep)| <= k < |Pieces(s, sep)| ==> Pieces(s, sep)[k] == ""
  {
  }

  lemma {:induction false} PiecesOfTrailingSeparator(s: string, sep: char)
    ensures Pieces(s + [sep], sep) == Pieces(s, sep) + [""]
  {
    if s == [] {
      assert Pieces([sep], sep) == [""] + Pieces([], sep);
    } else {
      assert (s + [sep])[1..] == s[1..] + [sep];
      PiecesOfTrailingSeparator(s[1..], sep);
    }
  }

  /**
   * A trailing separator never changes what split returns, unless the text is empty:
   * "a,b,c,d," splits into the same four fields as "a,b,c,d".
   */
  lemma SplitIgnoresTrailingSeparator(s: string, sep: char)
    requires s != ""
    ensures Split(s + [sep], sep) == Split(s, sep)
  {
    PiecesOfTrailingSeparator(s, sep);
    var p := Pieces(s, sep);
    assert (p + [""])[..|p|] == p;
    if sep !in s {
      assert p == [s] by {
        assert Join(p, sep) == s by { JoinPieces(s, sep); }
        NoSeparatorOnePiece(s, sep);
      }
    }
  }

  lemma {:induction false} NoSeparatorOnePiece(s: string, sep: char)
    requires sep !in s
    ensures Pieces(s, sep) == [s]
  {
    if s != [] {
      assert s[0] != sep && sep !in s[1..];
      NoSeparatorOnePiece(s[1..], sep);
      assert [s[0]] + s[1..] == s;
    }
  }

  /** A field without the separator, then the separator: the field is the first piece. */
  lemma {:induction false} PiecesAfterField(a: string, b: string, sep: char)
    requires sep !in a
    ensures Pieces(a + [sep] + b, sep) == [a] + Pieces(b, sep)
  {
    var s := a + [sep] + b;
    if a == [] {
      assert s[1..] == b;
    } else {
      assert s[1..] == a[1..] + [sep] + b;
      PiecesAfterField(a[1..], b, sep);
      assert [a[0]] + a[1..] == a;
    }
  }

  /** Four fields joined by commas, the last one non-empty, split back into those four fields. */
  lemma SplitOfFour(f0: string, f1: string, f2: string, f3: string, sep: char)
    requires sep !in f0 && sep !in f1 && sep !in f2 && sep !in f3 && f3 != ""
    ensures Split(f0 + [sep] + f1 + [sep] + f2 + [sep] + f3, sep) == [f0, f1, f2, f3]
  {
    var line := f0 + [sep] + f1 + [sep] + f2 + [sep] + f3;
    assert line == f0 + [sep] + (f1 + [sep] + (f2 + [sep] + f3));
    assert line[|f0|] == sep;
    PiecesAfterField(f0, f1 + [sep] + (f2 + [sep] + f3), sep);
    PiecesAfterField(f1, f2 + [sep] + f3, sep);
    PiecesAfterField(f2, f3, sep);
    NoSeparatorOnePiece(f3, sep);
    assert Pieces(line, sep) == [f0, f1, f2, f3];
  }

  /** Three fields joined by commas, the last one non-empty, split into three fields. */
  lemma SplitOfThree(f0: string, f1: string, f2: string, sep: char)
    requires sep !in f0 && sep !in f1 && sep !in f2 && f2 != ""
    ensures Split(f0 + [sep] + f1 + [sep] + f2, sep) == [f0, f1, f2]
  {
    var line := f0 + [sep] + f1 + [sep] + f2;
    assert line == f0 + [sep] + (f1 + [sep] + f2);
    assert line[|f0|] == sep;
    PiecesAfterField(f0, f1 + [sep] + f2, sep);
    PiecesAfterField(f1, f2, sep);
    NoSeparatorOnePiece(f2, sep);
    assert Pieces(line, sep) == [f0, f1, f2];
  }

  // ---------------------------------------------------------------- trim

  /** String.trim treats every character up to U+0020 as white space. */
  predicate IsTrimmed(c: char)
  {
    c <= ' '
  }

  function TrimStart(s: string): (r: string)
    ensures |r| <= |s| && r == s[|s| - |r|..]
    ensures forall k :: 0 <= k < |s| - |r| ==> IsTrimmed(s[k])
    ensures r == [] || !IsTrimmed(r[0])
  {
    if s != [] && IsTrimmed(s[0]) then TrimStart(s[1..]) else s
  }

  function TrimEnd(s: string): (r: string)
    ensures |r| <= |s| && r == s[..|r|]
    ensures forall k :: |r| <= k < |s| ==> IsTrimmed(s[k])
    ensures r == [] || !IsTrimmed(r[|r| - 1])
  {
    if s != [] && IsTrimmed(s[|s| - 1]) then TrimEnd(s[..|s| - 1]) else s
  }

  /** String.trim: no leading and no trailing white space, the middle untouched. */
  function Trim(s: string): (r: string)
    ensures |r| <= |s|
    ensures r == [] || (!IsTrimmed(r[0]) && !IsTrimmed(r[|r| - 1]))
  {
    var t := TrimStart(s);
    var r := TrimEnd(t);
    assert r != [] ==> r[0] == t[0];
    r
  }

  lemma {:induction false} TrimStartSkips(pre: string, rest: string)
    requires forall k :: 0 <= k < |pre| ==> IsTrimmed(pre[k])
    requires rest == [] || !IsTrimmed(rest[0])
    ensures TrimStart(pre + rest) == rest
  {
    if pre == [] {
      assert pre + rest == rest;
    } else {
      assert (pre + rest)[1..] == pre[1..] + rest;
      TrimStartSkips(pre[1..], rest);
    }
  }

  lemma {:induction false} TrimEndSkips(rest: string, post: string)
    requires forall k :: 0 <= k < |post| ==> IsTrimmed(post[k])
    requires rest == [] || !IsTrimmed(rest[|rest| - 1])
    ensures TrimEnd(rest + post) == rest
  {
    if post == [] {
      assert rest + post == rest;
    } else {
      var n := |post| - 1;
      assert (rest + post)[..|rest + post| - 1] == rest + post[..n];
      TrimEndSkips(rest, post[..n]);
    }
  }

  /** trim removes exactly the white space around a word that starts and ends with a non-space. */
  lemma TrimAround(pre: string, word: string, post: string)
    requires forall k :: 0 <= k < |pre| ==> IsTrimmed(pre[k])
    requires forall k :: 0 <= k < |post| ==> IsTrimmed(post[k])
    requires word != [] && !IsTrimmed(word[0]) && !IsTrimmed(word[|word| - 1])
    ensures Trim(pre + word + post) == word
  {
    assert pre + word + post == pre + (word + post);
    TrimStartSkips(pre, word + post);
    TrimEndSkips(word, post);
  }

  /**
   * The trimmed text is the slice s[a..b] of the original: everything before a and from
   * b on is white space, and a non-empty result starts and ends with a non-space.
   */
  lemma TrimIsSlice(s: string) returns (a: nat, b: nat)
    ensures a <= b <= |s| && Trim(s) == s[a..b]
    ensures forall k :: 0 <= k < a ==> IsTrimmed(s[k])
    ensures forall k :: b <= k < |s| ==> IsTrimmed(s[k])
    ensures a < b ==> !IsTrimmed(s[a]) && !IsTrimmed(s[b - 1])
  {
    var t := TrimStart(s);
    a, b := SuffixPrefix(s, t, TrimEnd(t));
  }

  /** A prefix r of a suffix t of s, both cut off at white space, is a slice of s. */
  lemma SuffixPrefix(s: string, t: string, r: string) returns (a: nat, b: nat)
    requires |t| <= |s| && t == s[|s| - |t|..] && |r| <= |t| && r == t[..|r|]
    requires forall k :: 0 <= k < |s| - |t| ==> IsTrimmed(s[k])
    requires forall k :: |r| <= k < |t| ==> IsTrimmed(t[k])
    requires t == [] || !IsTrimmed(t[0])
    requires r == [] || !IsTrimmed(r[|r| - 1])
    ensures a == |s| - |t| && b == a + |r|
    ensures a <= b <= |s| && r == s[a..b]
    ensures forall k :: 0 <= k < a ==> IsTrimmed(s[k])
    ensures forall k :: b <= k < |s| ==> IsTrimmed(s[k])
    ensures a < b ==> !IsTrimmed(s[a]) && !IsTrimmed(s[b - 1])
  {
    a := |s| - |t|;
    b := a + |r|;
    forall k | b <= k < |s| ensures IsTrimmed(s[k]) {
      assert t[k - a] == s[k];
    }
    if r != [] {
      assert r[0] == t[0] == s[a];
      assert r[|r| - 1] == s[b - 1];
    }
  }

  // ---------------------------------------------------------------- upper case

  function UpperChar(c: char): char
  {
    if 'a' <= c <= 'z' then (c as int - 32) as char else c
  }

  /** String.toUpperCase restricted to ASCII letters. */
  function Upper(s: string): (r: string)
    ensures |r| == |s|
    ensures forall k :: 0 <= k < |s| ==> r[k] == UpperChar(s[k])
  {
    seq(|s|, k requires 0 <= k < |s| => UpperChar(s[k]))
  }

  // ---------------------------------------------------------------- parseInt

  const MinInt32: int := -0x8000_0000
  const MaxInt32: int := 0x7FFF_FFFF

  predicate IsDigit(c: char)
  {
    '0' <= c <= '9'
  }

  predicate AllDigits(s: string)
  {
    forall k :: 0 <= k < |s| ==> IsDigit(s[k])
  }

  /** The value of a string of decimal digits, most significant first. */
  function DigitsValue(s: string): (n: nat)
    requires AllDigits(s)
  {
    if s == [] then 0 else DigitsValue(s[..|s| - 1]) * 10 + (s[|s| - 1] as int - '0' as int)
  }

  /**
   * Integer.parseInt(s): an optional '+' or '-', then at least one decimal digit, and a
   * value that fits in 32 bits; anything else is a NumberFormatException (None).
   */
  function ParseInt(s: string): (r: Option<int>)
    ensures r.Some? ==> MinInt32 <= r.value <= MaxInt32
    ensures r.Some? ==> s != [] && (IsDigit(s[0]) || s[0] == '-' || s[0] == '+')
    ensures r.Some? ==>
      var digits := if s[0] == '-' || s[0] == '+' then s[1..] else s;
      digits != [] && AllDigits(digits) &&
      r.value == if s[0] == '-' then -(DigitsValue(digits) as int) else DigitsValue(digits)
    ensures s != [] ==>
      var digits := if s[0] == '-' || s[0] == '+' then s[1..] else s;
      digits != [] && AllDigits(digits) &&
      MinInt32 <= (if s[0] == '-' then -(DigitsValue(digits) as int) else DigitsValue(digits)) <= MaxInt32
      ==> r.Some?
  {
    if s == [] then None
    else
      var negative := s[0] == '-';
      var digits := if s[0] == '-' || s[0] == '+' then s[1..] else s;
      if digits == [] || !AllDigits(digits) then None
      else
        var v: int := if negative then -(DigitsValue(digits) as int) else DigitsValue(digits);
        if MinInt32 <= v <= MaxInt32 then Some(v) else None
  }

  /** Integer.toString for the same values: a '-' for negatives, no leading zeros. */
  function NatDigits(n: nat): (s: string)
    ensures |s| >= 1 && AllDigits(s)
  {
    if n < 10 then [('0' as int + n) as char]
    else NatDigits(n / 10) + [('0' as int + n % 10) as char]
  }

  function IntToString(n: int): string
  {
    if n < 0 then "-" + NatDigits(-n) else NatDigits(n)
  }

  lemma {:induction false} DigitsOfNat(n: nat)
    ensures DigitsValue(NatDigits(n)) == n
  {
    if n >= 10 {
      DigitsOfNat(n / 10);
      var s := NatDigits(n);
      assert s[..|s| - 1] == NatDigits(n / 10);
    }
  }

  /** parseInt reads back every 32-bit value that toString prints. */
  lemma ParseIntRoundTrip(n: int)
    requires MinInt32 <= n <= MaxInt32
    ensures ParseInt(IntToString(n)) == Some(n)
  {
    var s := IntToString(n);
    if n < 0 {
      DigitsOfNat(-n);
      assert s[0] == '-' && s[1..] == NatDigits(-n);
    } else {
      DigitsOfNat(n);
      assert IsDigit(s[0]);
    }
  }
}
