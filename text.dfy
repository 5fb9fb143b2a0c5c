/** The Python string operations the crawler relies on: `str.find`,
    `str.split` with an explicit separator, `str.replace(c, '')` and
    `int()` on a decimal string. */
module Text {
  import opened Wrappers

  /** `sub` occurs in `s` starting at index `i`. */
  predicate OccursAt(s: string, sub: string, i: int) {
    0 <= i && i + |sub| <= |s| && s[i..i + |sub|] == sub
  }

  /** `str.find`: the lowest index at which `sub` occurs in `s`, or -1. */
  function Find(s: string, sub: string): (r: int)
    ensures -1 <= r
    ensures r == -1 <==> forall i :: 0 <= i <= |s| ==> !OccursAt(s, sub, i)
    ensures r >= 0 ==> OccursAt(s, sub, r) && forall i :: 0 <= i < r ==> !OccursAt(s, sub, i)
    decreases |s|
  {
    if |s| < |sub| then -1
    else if s[..|sub|] == sub then assert OccursAt(s, sub, 0); 0
    else
      assert !OccursAt(s, sub, 0);
      var j := Find(s[1..], sub);
      assert forall i :: 1 <= i <= |s| ==> (OccursAt(s[1..], sub, i - 1) <==> OccursAt(s, sub, i)) by {
        forall i | 1 <= i <= |s|
          ensures OccursAt(s[1..], sub, i - 1) <==> OccursAt(s, sub, i)
        {
          if i + |sub| <= |s| {
            assert s[1..][i - 1..i - 1 + |sub|] == s[i..i + |sub|];
          }
        }
      }
      if j == -1 then -1 else assert OccursAt(s, sub, j + 1); j + 1
  }

  /** `sep.join(parts)`. */
  function Join(parts: seq<string>, sep: string): string {
    if |parts| == 0 then ""
    else if |parts| == 1 then parts[0]
    else parts[0] + sep + Join(parts[1..], sep)
  }

  /** `s.split(sep)` for a non-empty separator: the pieces between
      successive leftmost non-overlapping occurrences of `sep`. */
  function Split(s: string, sep: string): (parts: seq<string>)
    requires |sep| > 0
    ensures |parts| >= 1
    ensures Join(parts, sep) == s
    ensures forall k :: 0 <= k < |parts| ==> Find(parts[k], sep) == -1
    ensures |parts| == 1 <==> Find(s, sep) == -1
    decreases |s|
  {
    var i := Find(s, sep);
    if i == -1 then [s]
    else
      var rest := Split(s[i + |sep|..], sep);
      SplitCons(s, sep, rest);
      [s[..i]] + rest
  }

  /** The step of `Split`: the text before the first occurrence, then the
      pieces of the text after it. */
  lemma SplitCons(s: string, sep: string, rest: seq<string>)
    requires |sep| > 0 && Find(s, sep) >= 0
    requires |rest| >= 1 && Join(rest, sep) == s[Find(s, sep) + |sep|..]
    requires forall k :: 0 <= k < |rest| ==> Find(rest[k], sep) == -1
    ensures var parts := [s[..Find(s, sep)]] + rest;
      && |parts| >= 2
      && Join(parts, sep) == s
      && forall k :: 0 <= k < |parts| ==> Find(parts[k], sep) == -1
  {
    var i := Find(s, sep);
    var head := s[..i];
    FindPrefixClean(s, sep);
    assert s == head + sep + s[i + |sep|..];
    JoinCons(head, rest, sep);
  }

  /** Joining a head before at least one more piece puts `sep` after it. */
  lemma JoinCons(head: string, rest: seq<string>, sep: string)
    requires |rest| >= 1
    ensures |[head] + rest| >= 2
    ensures ([head] + rest)[0] == head
    ensures forall k :: 1 <= k < |rest| + 1 ==> ([head] + rest)[k] == rest[k - 1]
    ensures Join([head] + rest, sep) == head + sep + Join(rest, sep)
  {
    assert ([head] + rest)[1..] == rest;
  }

  /** The text before the first occurrence holds no occurrence. */
  lemma FindPrefixClean(s: string, sep: string)
    requires |sep| > 0 && Find(s, sep) >= 0
    ensures Find(s[..Find(s, sep)], sep) == -1
  {
    var i := Find(s, sep);
    forall j | 0 <= j <= i ensures !OccursAt(s[..i], sep, j) {
      if j + |sep| <= i {
        assert s[..i][j..j + |sep|] == s[j..j + |sep|];
        assert !OccursAt(s, sep, j);
      }
    }
  }

  /** No proper suffix of `sep` is also a prefix of it, so two occurrences
      of `sep` can never overlap. */
  ghost predicate Borderless(sep: string) {
    forall d :: 0 < d < |sep| ==> sep[d..] != sep[..|sep| - d]
  }

  lemma SingleCharBorderless(c: char)
    ensures Borderless([c])
  {
  }

  /** If `a` holds no occurrence of a borderless `sep`, the first occurrence
      in `a + sep + b` is the one right after `a`. */
  lemma FindAfterClean(a: string, sep: string, b: string)
    requires |sep| > 0 && Borderless(sep)
    requires Find(a, sep) == -1
    ensures Find(a + sep + b, sep) == |a|
  {
    var t := a + sep + b;
    assert t[|a|..|a| + |sep|] == sep;
    assert OccursAt(t, sep, |a|);
    forall i | 0 <= i < |a| ensures !OccursAt(t, sep, i) {
      if i + |sep| <= |a| {
        assert t[i..i + |sep|] == a[i..i + |sep|];
        assert !OccursAt(a, sep, i);
      } else if i + |sep| <= |t| {
        var d := |a| - i;
        assert t[i..i + |sep|][d..] == t[|a|..i + |sep|] == sep[..|sep| - d];
        assert sep[d..] != sep[..|sep| - d];
      }
    }
  }

  /** `split` undoes `join` when no part contains a borderless separator. */
  lemma {:induction false} SplitJoin(parts: seq<string>, sep: string)
    requires |sep| > 0 && Borderless(sep)
    requires |parts| >= 1
    requires forall k :: 0 <= k < |parts| ==> Find(parts[k], sep) == -1
    ensures Split(Join(parts, sep), sep) == parts
  {
    if |parts| > 1 {
      var head, tail := parts[0], parts[1..];
      var rest := Join(tail, sep);
      JoinCons(head, tail, sep);
      assert parts == [head] + tail;
      var s := head + sep + rest;
      FindAfterClean(head, sep, rest);
      assert s[..|head|] == head;
      assert s[|head| + |sep|..] == rest;
      assert forall k :: 0 <= k < |tail| ==> tail[k] == parts[k + 1];
      SplitJoin(tail, sep);
      assert Split(s, sep) == [head] + Split(rest, sep);
    }
  }

  /** `s` starts with the two fields `a` and `b`, each free of `sep` and
      each followed by `sep` unless it ends `s`: pieces 0 and 1 of
      `s.split(sep)`. */
  ghost predicate LeadingFields(s: string, sep: string, a: string, b: string) {
    && Find(a, sep) == -1
    && Find(b, sep) == -1
    && (s == a + sep + b || a + sep + b + sep <= s)
  }

  /** The first of two leading fields is a prefix. */
  lemma LeadingPrefix(s: string, sep: string, a: string, b: string)
    requires LeadingFields(s, sep, a, b)
    ensures a <= s
  {
    assert a <= a + sep + b;
    if s != a + sep + b {
      assert a + sep + b <= a + sep + b + sep;
    }
  }

  /** Pieces 0 and 1 of a split with at least two pieces are leading fields. */
  lemma SplitLeading(s: string, sep: string)
    requires |sep| > 0 && |Split(s, sep)| >= 2
    ensures LeadingFields(s, sep, Split(s, sep)[0], Split(s, sep)[1])
  {
    var p := Split(s, sep);
    JoinLeading(p, sep);
  }

  lemma JoinLeading(p: seq<string>, sep: string)
    requires |p| >= 2
    ensures var s := Join(p, sep);
      s == p[0] + sep + p[1] || p[0] + sep + p[1] + sep <= s
  {
    var tail := Join(p[1..], sep);
    assert Join(p, sep) == p[0] + sep + tail;
    if |p| == 2 {
      assert p[1..] == [p[1]];
    } else {
      assert p[1..][1..] == p[2..];
      var more := Join(p[2..], sep);
      assert tail == p[1] + sep + more;
      assert Join(p, sep) == (p[0] + sep + p[1] + sep) + more;
    }
  }

  /** Leading fields are pieces 0 and 1 of the split, when the separator
      is borderless. */
  lemma LeadingSplit(s: string, sep: string, a: string, b: string)
    requires |sep| > 0 && Borderless(sep)
    requires LeadingFields(s, sep, a, b)
    ensures |Split(s, sep)| >= 2 && Split(s, sep)[0] == a && Split(s, sep)[1] == b
  {
    if s == a + sep + b {
      SplitJoin([a, b], sep);
      assert Join([a, b], sep) == a + sep + b by {
        assert [a, b][1..] == [b];
      }
    } else {
      var rest := s[|a + sep + b + sep|..];
      assert s == a + sep + (b + sep + rest);
      FindAfterClean(a, sep, b + sep + rest);
      assert s[|a| + |sep|..] == b + sep + rest;
      FindAfterClean(b, sep, rest);
      assert (b + sep + rest)[..|b|] == b;
    }
  }

  /** The last piece of a join is a suffix, preceded by the separator
      whenever there is more than one piece. */
  lemma {:induction false} JoinLast(parts: seq<string>, sep: string)
    requires |parts| >= 2
    ensures Join(parts, sep) == Join(parts[..|parts| - 1], sep) + sep + parts[|parts| - 1]
  {
    if |parts| > 2 {
      JoinLast(parts[1..], sep);
      assert parts[1..][..|parts| - 2] == parts[..|parts| - 1][1..];
    }
  }

  /** `str.find` with a one-character needle is membership. */
  lemma FindChar(s: string, c: char)
    ensures Find(s, [c]) == -1 <==> c !in s
  {
    if c in s {
      var i :| 0 <= i < |s| && s[i] == c;
      assert s[i..i + 1] == [c];
      assert OccursAt(s, [c], i);
    } else {
      forall i | 0 <= i <= |s| ensures !OccursAt(s, [c], i) {
        if i < |s| {
          assert s[i..i + 1][0] == s[i];
        }
      }
    }
  }

  /** `s.replace(c, '')`: every occurrence of `c` removed, everything else
      kept in order. */
  function RemoveChar(s: string, c: char): (r: string)
    ensures c !in r
    ensures c !in s ==> r == s
  {
    if s == [] then []
    else
      assert s == [s[0]] + s[1..];
      (if s[0] == c then [] else [s[0]]) + RemoveChar(s[1..], c)
  }

  /** Removal keeps every other character as often as it occurred. */
  lemma {:induction false} RemoveCharCounts(s: string, c: char)
    ensures forall x :: x != c ==> multiset(RemoveChar(s, c))[x] == multiset(s)[x]
  {
    if s != [] {
      RemoveCharCounts(s[1..], c);
      var h := if s[0] == c then [] else [s[0]];
      assert s == [s[0]] + s[1..];
      assert multiset(RemoveChar(s, c)) == multiset(h) + multiset(RemoveChar(s[1..], c));
    }
  }

  /** Removal works piecewise, so it keeps the order of what remains. */
  lemma {:induction false} RemoveCharConcat(a: string, b: string, c: char)
    ensures RemoveChar(a + b, c) == RemoveChar(a, c) + RemoveChar(b, c)
  {
    if a == [] {
      assert a + b == b;
    } else {
      var h := if a[0] == c then [] else [a[0]];
      assert (a + b)[0] == a[0] && (a + b)[1..] == a[1..] + b;
      RemoveCharConcat(a[1..], b, c);
      assert RemoveChar(a + b, c) == h + RemoveChar(a[1..] + b, c);
      assert RemoveChar(a, c) == h + RemoveChar(a[1..], c);
      assert h + (RemoveChar(a[1..], c) + RemoveChar(b, c)) == (h + RemoveChar(a[1..], c)) + RemoveChar(b, c);
    }
  }

  predicate IsDigit(ch: char) {
    '0' <= ch <= '9'
  }

  /** A non-empty string of ASCII decimal digits. */
  predicate IsDecimal(s: string) {
    |s| > 0 && forall i :: 0 <= i < |s| ==> IsDigit(s[i])
  }

  function DigitValue(ch: char): nat
    requires IsDigit(ch)
  {
    (ch as int) - ('0' as int)
  }

  function DigitChar(n: nat): (ch: char)
    requires n < 10
    ensures IsDigit(ch) && DigitValue(ch) == n
  {
    (('0' as int) + n) as char
  }

  /** The value of a string of decimal digits, most significant first. */
  function DigitsValue(s: string): nat
    requires forall i :: 0 <= i < |s| ==> IsDigit(s[i])
  {
    if s == [] then 0
    else DigitsValue(s[..|s| - 1]) * 10 + DigitValue(s[|s| - 1])
  }

  /** `int(s)` restricted to plain decimal digits: `None` where Python
      raises `ValueError`. */
  function ParseInt(s: string): (r: Option<int>)
    ensures r.Some? <==> IsDecimal(s)
    ensures r.Some? ==> r.value >= 0
  {
    if IsDecimal(s) then Some(DigitsValue(s)) else None
  }

  /** `str(n)` for a natural number. */
  function ShowNat(n: nat): (s: string)
    ensures IsDecimal(s)
  {
    if n < 10 then [DigitChar(n)] else ShowNat(n / 10) + [DigitChar(n % 10)]
  }

  /** `str(n)` for any integer. */
  function ShowInt(n: int): string {
    if n < 0 then "-" + ShowNat(-n) else ShowNat(n)
  }

  /** Parsing what `str` printed gives the number back. */
  lemma {:induction false} ParseShow(n: nat)
    ensures ParseInt(ShowNat(n)) == Some(n)
  {
    if n >= 10 {
      ParseShow(n / 10);
      var s := ShowNat(n);
      assert s[..|s| - 1] == ShowNat(n / 10);
      assert s[|s| - 1] == DigitChar(n % 10);
      assert DigitsValue(s) == (n / 10) * 10 + n % 10;
    }
  }
}
