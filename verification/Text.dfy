/** Facts about joining and splitting strings, and about decimal notation. */
module Text {

  /** Where c first occurs in s, or |s|. */
  function FirstIndex(s: string, c: char): (i: nat)
    ensures i <= |s|
  {
    if s == [] || s[0] == c then 0 else 1 + FirstIndex(s[1..], c)
  }

  /** One past where c last occurs in s, or 0. */
  function LastEnd(s: string, c: char): (i: nat)
    ensures i <= |s|
  {
    if s == [] || s[|s| - 1] == c then |s| else LastEnd(s[..|s| - 1], c)
  }

  lemma {:induction false} FirstIndexIs(a: string, x: string, c: char)
    requires c !in a
    ensures FirstIndex(a + [c] + x, c) == |a|
  {
    if a != [] {
      FirstIndexIs(a[1..], x, c);
      assert (a + [c] + x)[1..] == a[1..] + [c] + x;
    }
  }

  lemma {:induction false} LastEndIs(x: string, a: string, c: char)
    requires c !in a
    ensures LastEnd(x + [c] + a, c) == |x| + 1
  {
    if a != [] {
      LastEndIs(x, a[..|a| - 1], c);
      assert (x + [c] + a)[..|x + [c] + a| - 1] == x + [c] + a[..|a| - 1];
    }
  }

  lemma SplitFirst(a: string, x: string, b: string, y: string, c: char)
    requires c !in a && c !in b && a + [c] + x == b + [c] + y
    ensures a == b && x == y
  {
    FirstIndexIs(a, x, c);
    FirstIndexIs(b, y, c);
    var s := a + [c] + x;
    assert a == s[..|a|] && x == s[|a| + 1..];
    assert b == s[..|b|] && y == s[|b| + 1..];
  }

  lemma SplitLast(x: string, a: string, y: string, b: string, c: char)
    requires c !in a && c !in b && x + [c] + a == y + [c] + b
    ensures x == y && a == b
  {
    LastEndIs(x, a, c);
    LastEndIs(y, b, c);
    var s := x + [c] + a;
    assert x == s[..|x|] && a == s[|x| + 1..];
    assert y == s[..|y|] && b == s[|y| + 1..];
  }

  /** `strings.Join`. */
  function Join(parts: seq<string>, sep: string): string {
    if parts == [] then "" else if |parts| == 1 then parts[0]
        else Join(parts[..|parts| - 1], sep) + sep + parts[|parts| - 1]
  }

  lemma JoinAppends(parts: seq<string>, x: string, sep: string)
    ensures Join(parts + [x], sep) == if parts == [] then x else Join(parts, sep) + sep + x
  {
    assert (parts + [x])[..|parts|] == parts;
  }

  /** `strings.Split` at a character. */
  function Split(s: string, c: char): (parts: seq<string>)
    ensures parts != []
  {
    if s == "" then [""]
    else
      var last := s[|s| - 1];
      var before := Split(s[..|s| - 1], c);
      if last == c then before + [""] else before[..|before| - 1] + [before[|before| - 1] + [last]]
  }

  /** Joining what was split gives the string back. */
  lemma {:induction false} JoinOfSplit(s: string, c: char)
    ensures Join(Split(s, c), [c]) == s
  {
    if s != "" {
      var n := |s| - 1;
      var before := Split(s[..n], c);
      JoinOfSplit(s[..n], c);
      assert s == s[..n] + [s[n]];
      if s[n] == c {
        JoinAppends(before, "", [c]);
        assert Join(before, [c]) + [c] + "" == s;
      } else {
        var m := |before| - 1;
        assert before == before[..m] + [before[m]];
        JoinAppends(before[..m], before[m], [c]);
        JoinAppends(before[..m], before[m] + [s[n]], [c]);
      }
    }
  }

  function Digits(n: nat): (s: string)
    ensures s != [] && forall i :: 0 <= i < |s| ==> '0' <= s[i] <= '9'
  {
    var d := ['0' + (n % 10) as char];
    if n < 10 then d else Digits(n / 10) + d
  }

  /** `strconv.FormatInt(n, 10)`. */
  function FormatInt(n: int): (s: string)
    ensures s != [] && forall i :: 0 <= i < |s| ==> s[i] == '-' || '0' <= s[i] <= '9'
  {
    if n < 0 then "-" + Digits(-n) else Digits(n)
  }

  lemma {:induction false} DigitsInjective(m: nat, n: nat)
    requires Digits(m) == Digits(n)
    ensures m == n
  {
    var s := Digits(m);
    var last := s[|s| - 1];
    assert last == '0' + (m % 10) as char == '0' + (n % 10) as char;
    assert m % 10 == n % 10;
    if m >= 10 && n >= 10 {
      assert Digits(m / 10) == s[..|s| - 1] == Digits(n / 10);
      DigitsInjective(m / 10, n / 10);
    }
  }

  lemma FormatIntInjective(m: int, n: int)
    requires FormatInt(m) == FormatInt(n)
    ensures m == n
  {
    assert m < 0 <==> FormatInt(m)[0] == '-';
    assert n < 0 <==> FormatInt(n)[0] == '-';
    if m < 0 {
      assert Digits(-m) == FormatInt(m)[1..] == Digits(-n);
      DigitsInjective(-m, -n);
    } else {
      DigitsInjective(m, n);
    }
  }
}
