/** String helpers shared by the model: splitting on one character (as String.Split(char)
    does), joining, the literal "%2F" replacement used by UrlEncode, ASCII lower-casing
    and decimal formatting of integers. */
module Strings {

  /** Splits `s` at every occurrence of `c`, keeping empty segments, like .NET's
      String.Split(char): n separators give n + 1 segments. */
  function Split(s: string, c: char): (parts: seq<string>)
    ensures |parts| >= 1
  {
    if s == [] then [[]]
    else
      var rest := Split(s[1..], c);
      if s[0] == c then [[]] + rest else [[s[0]] + rest[0]] + rest[1..]
  }

  /** Joins segments with the separator `c` between neighbours. */
  function Join(parts: seq<string>, c: char): string
  {
    if |parts| == 0 then []
    else if |parts| == 1 then parts[0]
    else parts[0] + [c] + Join(parts[1..], c)
  }

  /** Splitting and joining again gives back the original string. */
  lemma {:induction false} JoinSplit(s: string, c: char)
    ensures Join(Split(s, c), c) == s
  {
    if s != [] {
      var rest := Split(s[1..], c);
      JoinSplit(s[1..], c);
      if s[0] == c {
        assert Split(s, c) == [[]] + rest;
        assert Join([[]] + rest, c) == [] + [c] + Join(rest, c);
      } else {
        var parts := [[s[0]] + rest[0]] + rest[1..];
        assert Split(s, c) == parts;
        if |rest| == 1 {
          assert rest == [rest[0]];
          assert Join(rest, c) == rest[0];
        } else {
          assert parts[1..] == rest[1..];
          assert Join(rest, c) == rest[0] + [c] + Join(rest[1..], c);
        }
      }
    }
  }

  /** No segment produced by Split contains the separator. */
  lemma {:induction false} SplitSegmentsFree(s: string, c: char)
    ensures forall i :: 0 <= i < |Split(s, c)| ==> c !in Split(s, c)[i]
  {
    if s != [] {
      SplitSegmentsFree(s[1..], c);
    }
  }

  /** Joining two non-empty lists of segments puts one separator between the two joins. */
  lemma {:induction false} JoinAppend(x: seq<string>, y: seq<string>, c: char)
    requires |x| >= 1 && |y| >= 1
    ensures Join(x + y, c) == Join(x, c) + [c] + Join(y, c)
  {
    if |x| == 1 {
      assert (x + y)[1..] == y;
    } else {
      assert (x + y)[1..] == x[1..] + y;
      JoinAppend(x[1..], y, c);
    }
  }

  /** Segments of `s` separated by `c`, with empty segments dropped
      (String.Split with StringSplitOptions.RemoveEmptyEntries). */
  function NonEmptySegments(s: string, c: char): (parts: seq<string>)
    ensures forall i :: 0 <= i < |parts| ==> parts[i] != [] && c !in parts[i]
  {
    SplitSegmentsFree(s, c);
    RemoveEmpty(Split(s, c))
  }

  function RemoveEmpty(parts: seq<string>): (r: seq<string>)
    ensures forall i :: 0 <= i < |r| ==> r[i] != [] && r[i] in parts
    ensures forall i :: 0 <= i < |parts| && parts[i] != [] ==> parts[i] in r
  {
    if parts == [] then []
    else if parts[0] == [] then RemoveEmpty(parts[1..])
    else [parts[0]] + RemoveEmpty(parts[1..])
  }

  /** Every occurrence of "%2F", scanned from the left, replaced by "/"
      (String.Replace("%2F", "/"), which is ordinal and case-sensitive). */
  function ReplaceEncodedSlash(s: string): string
  {
    if |s| >= 3 && s[..3] == "%2F" then "/" + ReplaceEncodedSlash(s[3..])
    else if s == [] then []
    else [s[0]] + ReplaceEncodedSlash(s[1..])
  }

  predicate ContainsAt(s: string, i: int, w: string)
  {
    0 <= i && i + |w| <= |s| && s[i..i + |w|] == w
  }

  predicate Contains(s: string, w: string)
  {
    exists i | 0 <= i <= |s| :: ContainsAt(s, i, w)
  }

  lemma {:induction false} ReplaceHead(s: string)
    ensures |ReplaceEncodedSlash(s)| == 0 <==> s == []
    ensures s != [] && !(|s| >= 3 && s[..3] == "%2F") ==>
              ReplaceEncodedSlash(s)[0] == s[0]
    ensures |s| >= 3 && s[..3] == "%2F" ==> ReplaceEncodedSlash(s)[0] == '/'
  {
  }

  /** After the replacement no "%2F" is left in the text. */
  lemma {:induction false} NoEncodedSlashLeft(s: string)
    ensures !Contains(ReplaceEncodedSlash(s), "%2F")
  {
    if s == [] {
    } else if |s| >= 3 && s[..3] == "%2F" {
      NoEncodedSlashLeft(s[3..]);
      var t := ReplaceEncodedSlash(s[3..]);
      var r := ReplaceEncodedSlash(s);
      assert r == "/" + t;
      forall i | 0 <= i <= |r| ensures !ContainsAt(r, i, "%2F") {
        if i == 0 {
          assert r[0] == '/';
        } else if i + 3 <= |r| {
          assert r[i..i + 3] == t[i - 1..i + 2];
          assert !ContainsAt(t, i - 1, "%2F");
        }
      }
    } else {
      NoEncodedSlashLeft(s[1..]);
      var t := ReplaceEncodedSlash(s[1..]);
      var r := ReplaceEncodedSlash(s);
      assert r == [s[0]] + t;
      forall i | 0 <= i <= |r| ensures !ContainsAt(r, i, "%2F") {
        if i == 0 {
          NoEncodedSlashAtFront(s);
        } else if i + 3 <= |r| {
          assert r[i..i + 3] == t[i - 1..i + 2];
          assert !ContainsAt(t, i - 1, "%2F");
        }
      }
    }
  }

  /** The replacement never produces "%2F" at its very start. */
  lemma NoEncodedSlashAtFront(s: string)
    ensures !ContainsAt(ReplaceEncodedSlash(s), 0, "%2F")
  {
    var r := ReplaceEncodedSlash(s);
    if |r| >= 3 {
      assert ContainsAt(r, 0, "%2F") ==> r[0] == '%' && r[1] == '2' && r[2] == 'F' by {
        if ContainsAt(r, 0, "%2F") {
          assert r[..3] == "%2F";
        }
      }
      FrontNotEncodedSlash(s);
    }
  }

  /** The first three characters of the replacement are never '%', '2', 'F'. */
  lemma FrontNotEncodedSlash(s: string)
    requires |ReplaceEncodedSlash(s)| >= 3
    ensures var r := ReplaceEncodedSlash(s); !(r[0] == '%' && r[1] == '2' && r[2] == 'F')
  {
    var r := ReplaceEncodedSlash(s);
    ReplaceHead(s);
    if s != [] && !(|s| >= 3 && s[..3] == "%2F") && s[0] == '%' {
      var t := ReplaceEncodedSlash(s[1..]);
      assert r == [s[0]] + t;
      assert r[1] == t[0] && r[2] == t[1];
      SecondNotEncodedSlash(s, t);
    }
  }

  /** After a leading '%' that does not start "%2F", the next two characters are not '2', 'F'. */
  lemma SecondNotEncodedSlash(s: string, t: string)
    requires |s| >= 1 && s[0] == '%' && !(|s| >= 3 && s[..3] == "%2F")
    requires t == ReplaceEncodedSlash(s[1..]) && |t| >= 2
    ensures !(t[0] == '2' && t[1] == 'F')
  {
    var s1 := s[1..];
    ReplaceHead(s1);
    if s1 != [] && !(|s1| >= 3 && s1[..3] == "%2F") && s1[0] == '2' {
      var u := ReplaceEncodedSlash(s1[1..]);
      assert t == [s1[0]] + u;
      assert t[1] == u[0];
      assert s1[1..] == s[2..];
      ReplaceHead(s[2..]);
      if !(|s| >= 5 && s[2..][..3] == "%2F") {
        assert u[0] == s[2];
        assert s[..3] == [s[0], s[1], s[2]];
      }
    }
  }

  /** Text without "%2F" is left as it is. */
  lemma {:induction false} ReplaceIdentity(s: string)
    requires !Contains(s, "%2F")
    ensures ReplaceEncodedSlash(s) == s
  {
    if s != [] {
      assert !ContainsAt(s, 0, "%2F");
      if |s| >= 3 {
        assert s[..3] != "%2F";
      }
      forall i | ContainsAt(s[1..], i, "%2F") ensures false {
        assert s[1..][i..i + 3] == s[i + 1..i + 4];
        assert ContainsAt(s, i + 1, "%2F");
      }
      ReplaceIdentity(s[1..]);
    }
  }

  /** ASCII lower-casing of one character. */
  function LowerChar(ch: char): char
  {
    if 'A' <= ch <= 'Z' then (ch as int + 32) as char else ch
  }

  function Lower(s: string): (r: string)
    ensures |r| == |s|
    ensures forall i :: 0 <= i < |s| ==> r[i] == LowerChar(s[i])
  {
    if s == [] then [] else [LowerChar(s[0])] + Lower(s[1..])
  }

  /** Lower-casing leaves a leading dot in place. */
  lemma LowerAfterDot(e: string)
    ensures Lower("." + e) == "." + Lower(e)
  {
    var l := Lower("." + e);
    assert l[0] == '.';
    assert forall k :: 1 <= k < |l| ==> l[k] == LowerChar(("." + e)[k]) == LowerChar(e[k - 1]);
  }

  /** Lower-casing twice is lower-casing once. */
  lemma LowerIdempotent(s: string)
    ensures Lower(Lower(s)) == Lower(s)
  {
  }

  /** Decimal digits of a natural number, most significant first, without leading zeros. */
  function Digits(n: nat): (r: string)
    ensures |r| >= 1 && forall i :: 0 <= i < |r| ==> '0' <= r[i] <= '9'
    ensures |r| > 1 ==> r[0] != '0'
  {
    if n < 10 then [DigitChar(n)] else Digits(n / 10) + [DigitChar(n % 10)]
  }

  function DigitChar(d: nat): (ch: char)
    requires d < 10
    ensures '0' <= ch <= '9'
  {
    ('0' as int + d) as char
  }

  /** The value of a string of decimal digits. */
  function DigitsValue(s: string): nat
    requires forall i :: 0 <= i < |s| ==> '0' <= s[i] <= '9'
  {
    if s == [] then 0 else DigitsValue(s[..|s| - 1]) * 10 + (s[|s| - 1] as int - '0' as int)
  }

  /** Reading the digits back gives the number: Digits is injective. */
  lemma {:induction false} DigitsRoundTrip(n: nat)
    ensures DigitsValue(Digits(n)) == n
  {
    if n >= 10 {
      DigitsRoundTrip(n / 10);
      var d := Digits(n);
      assert d[..|d| - 1] == Digits(n / 10);
    }
  }

  /** How an int is written by string interpolation: an optional '-' and its digits. */
  function IntToString(n: int): string
  {
    if n < 0 then "-" + Digits(-n) else Digits(n)
  }

  lemma SignOf(n: int)
    ensures |IntToString(n)| >= 1
    ensures IntToString(n)[0] == '-' <==> n < 0
  {
  }

  /** Different integers are written differently. */
  lemma IntToStringInjective(m: int, n: int)
    requires IntToString(m) == IntToString(n)
    ensures m == n
  {
    SignOf(m);
    SignOf(n);
    if m < 0 {
      DropSign(m);
      DropSign(n);
      DigitsInjective(-m, -n);
    } else {
      DigitsInjective(m, n);
    }
  }

  lemma DropSign(n: int)
    requires n < 0
    ensures IntToString(n)[1..] == Digits(-n)
  {
    var d := Digits(-n);
    assert ("-" + d)[1..] == d;
  }

  lemma DigitsInjective(a: nat, b: nat)
    requires Digits(a) == Digits(b)
    ensures a == b
  {
    DigitsRoundTrip(a);
    DigitsRoundTrip(b);
  }
}
