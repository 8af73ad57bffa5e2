/**
 * String helpers of the resolver: `leftPad`, `Array.prototype.join`,
 * `String.prototype.split` on one character, ASCII `toLowerCase`,
 * `replace(/ /g, "-")` and the slash trimming `replace(/^\/+|\/+$/g, "")`.
 */
module Text {

  /** `n` copies of `c`. */
  function Repeat(c: char, n: nat): (r: string)
    ensures |r| == n
    ensures forall i :: 0 <= i < n ==> r[i] == c
  {
    if n == 0 then [] else [c] + Repeat(c, n - 1)
  }

  /**
   * `leftPad(string, length, character)`: `new Array(length - |s| + 1).join(c)`
   * is `length - |s|` copies of `c`, put in front of `s`.
   */
  function LeftPad(s: string, length: nat, c: char): (r: string)
    ensures |s| >= length ==> r == s
    ensures |r| == if |s| >= length then |s| else length
    ensures r[|r| - |s|..] == s
    ensures forall i :: 0 <= i < |r| - |s| ==> r[i] == c
  {
    if |s| >= length then s else Repeat(c, length - |s|) + s
  }

  /** `parts.join(sep)`. */
  function Join(parts: seq<string>, sep: string): string
  {
    if |parts| == 0 then []
    else if |parts| == 1 then parts[0]
    else parts[0] + sep + Join(parts[1..], sep)
  }

  /** Every character of a join comes from a part or from the separator. */
  lemma {:induction false} JoinKeeps(parts: seq<string>, sep: string, p: char -> bool)
    requires forall i :: 0 <= i < |sep| ==> p(sep[i])
    requires forall k, i :: 0 <= k < |parts| && 0 <= i < |parts[k]| ==> p(parts[k][i])
    ensures forall i :: 0 <= i < |Join(parts, sep)| ==> p(Join(parts, sep)[i])
  {
    if |parts| > 1 {
      JoinKeeps(parts[1..], sep, p);
      var rest := Join(parts[1..], sep);
      forall i | 0 <= i < |parts[0] + sep + rest|
        ensures p((parts[0] + sep + rest)[i])
      {
        if i < |parts[0]| {
        } else if i < |parts[0]| + |sep| {
          assert (parts[0] + sep + rest)[i] == sep[i - |parts[0]|];
        } else {
          assert (parts[0] + sep + rest)[i] == rest[i - |parts[0]| - |sep|];
        }
      }
    }
  }

  /** `s.split(sep)` for a one-character separator; never empty. */
  function Split(s: string, sep: char): (r: seq<string>)
    ensures |r| >= 1
    ensures forall k, i :: 0 <= k < |r| && 0 <= i < |r[k]| ==> r[k][i] != sep
  {
    if s == [] then [[]]
    else
      var rest := Split(s[1..], sep);
      if s[0] == sep then [[]] + rest
      else [[s[0]] + rest[0]] + rest[1..]
  }

  lemma {:induction false} SplitNoSeparator(a: string, sep: char)
    requires forall i :: 0 <= i < |a| ==> a[i] != sep
    ensures Split(a, sep) == [a]
  {
    if a != [] {
      SplitNoSeparator(a[1..], sep);
      assert [a[0]] + a[1..] == a;
    }
  }

  lemma {:induction false} SplitAfterPart(a: string, sep: char, b: string)
    requires forall i :: 0 <= i < |a| ==> a[i] != sep
    ensures Split(a + [sep] + b, sep) == [a] + Split(b, sep)
  {
    var s := a + [sep] + b;
    if a == [] {
      assert s[1..] == b;
    } else {
      assert s[1..] == a[1..] + [sep] + b;
      SplitAfterPart(a[1..], sep, b);
      assert [a[0]] + a[1..] == a;
    }
  }

  /** Splitting a join on its one-character separator gives the parts back. */
  lemma {:induction false} SplitJoin(parts: seq<string>, sep: char)
    requires |parts| >= 1
    requires forall k, i :: 0 <= k < |parts| && 0 <= i < |parts[k]| ==> parts[k][i] != sep
    ensures Split(Join(parts, [sep]), sep) == parts
  {
    if |parts| == 1 {
      SplitNoSeparator(parts[0], sep);
    } else {
      SplitJoin(parts[1..], sep);
      SplitAfterPart(parts[0], sep, Join(parts[1..], [sep]));
      assert [parts[0]] + parts[1..] == parts;
    }
  }

  /** ASCII lower case; other characters are left alone. */
  function LowerChar(c: char): char
  {
    if 'A' <= c <= 'Z' then (c as int + 32) as char else c
  }

  /** `s.toLowerCase()` restricted to ASCII letters. */
  function Lower(s: string): (r: string)
    ensures |r| == |s|
    ensures forall i :: 0 <= i < |s| ==> r[i] == LowerChar(s[i])
  {
    seq(|s|, i requires 0 <= i < |s| => LowerChar(s[i]))
  }

  /** No ASCII capital letter. */
  predicate NoUpper(s: string)
  {
    forall i :: 0 <= i < |s| ==> !('A' <= s[i] <= 'Z')
  }

  /** Lower-casing leaves no ASCII capital, so a second pass changes nothing. */
  lemma LowerIsLower(s: string)
    ensures NoUpper(Lower(s))
    ensures Lower(Lower(s)) == Lower(s)
  {
    LowerOfNoUpper(Lower(s));
  }

  /** A string is its own lower case exactly when it holds no ASCII capital. */
  lemma LowerOfNoUpper(s: string)
    ensures Lower(s) == s <==> NoUpper(s)
  {
    if Lower(s) == s {
      forall i | 0 <= i < |s| ensures !('A' <= s[i] <= 'Z') {
        assert Lower(s)[i] == LowerChar(s[i]);
      }
    }
  }

  /** `s.replace(/x/g, y)` for single characters `x` and `y`. */
  function ReplaceAll(s: string, x: char, y: char): (r: string)
    ensures |r| == |s|
    ensures forall i :: 0 <= i < |s| ==> r[i] == if s[i] == x then y else s[i]
  {
    seq(|s|, i requires 0 <= i < |s| => if s[i] == x then y else s[i])
  }

  /** Replacing `x` by a different character leaves no `x`; a string without `x` is unchanged. */
  lemma ReplaceAllRemoves(s: string, x: char, y: char)
    requires x != y
    ensures forall i :: 0 <= i < |ReplaceAll(s, x, y)| ==> ReplaceAll(s, x, y)[i] != x
    ensures ReplaceAll(s, x, y) == s <==> forall i :: 0 <= i < |s| ==> s[i] != x
  {
    if ReplaceAll(s, x, y) == s {
      forall i | 0 <= i < |s| ensures s[i] != x {
        assert ReplaceAll(s, x, y)[i] == s[i];
      }
    }
  }

  predicate EndsWith(s: string, suffix: string)
  {
    |suffix| <= |s| && s[|s| - |suffix|..] == suffix
  }

  /** The `^\/+` half of the trimming regex: drops every leading `/`. */
  function TrimLeading(s: string): string
  {
    if |s| > 0 && s[0] == '/' then TrimLeading(s[1..]) else s
  }

  /** The `\/+$` half of the trimming regex: drops every trailing `/`. */
  function TrimTrailing(s: string): string
  {
    if |s| > 0 && s[|s| - 1] == '/' then TrimTrailing(s[..|s| - 1]) else s
  }

  /** `s.replace(/^\/+|\/+$/g, "")`. */
  function TrimSlashes(s: string): string
  {
    TrimTrailing(TrimLeading(s))
  }

  /** Leading trimming keeps a suffix, removes only `/`, and leaves no leading `/`. */
  lemma {:induction false} TrimLeadingSuffix(s: string)
    ensures var r := TrimLeading(s);
      && |r| <= |s| && r == s[|s| - |r|..]
      && (forall i :: 0 <= i < |s| - |r| ==> s[i] == '/')
      && (r == [] || r[0] != '/')
  {
    if |s| > 0 && s[0] == '/' {
      TrimLeadingSuffix(s[1..]);
    }
  }

  /** Trailing trimming keeps a prefix, removes only `/`, and leaves no trailing `/`. */
  lemma {:induction false} TrimTrailingPrefix(s: string)
    ensures var r := TrimTrailing(s);
      && |r| <= |s| && r == s[..|r|]
      && (forall i :: |r| <= i < |s| ==> s[i] == '/')
      && (r == [] || r[|r| - 1] != '/')
  {
    if |s| > 0 && s[|s| - 1] == '/' {
      TrimTrailingPrefix(s[..|s| - 1]);
    }
  }

  /**
   * The trimmed string is the part of the input between a run of leading
   * and a run of trailing slashes (the first `a` characters and the last
   * ones), and has neither at its ends.
   */
  lemma TrimSlashesInner(s: string)
    ensures var r := TrimSlashes(s);
      && (r == [] || (r[0] != '/' && r[|r| - 1] != '/'))
      && var a := |s| - |TrimLeading(s)|;
      && 0 <= a <= |s| - |r| && r == s[a..a + |r|]
      && (forall i :: 0 <= i < a ==> s[i] == '/')
      && (forall i :: a + |r| <= i < |s| ==> s[i] == '/')
  {
    var l := TrimLeading(s);
    TrimLeadingSuffix(s);
    TrimTrailingPrefix(l);
    var r := TrimTrailing(l);
    var a := |s| - |l|;
    assert r == s[a..a + |r|];
    forall i | a + |r| <= i < |s| ensures s[i] == '/' {
      assert s[i] == l[i - a];
    }
  }

  /** A string trims to itself exactly when it neither starts nor ends with `/`. */
  lemma TrimSlashesFixed(s: string)
    ensures TrimSlashes(s) == s <==> (s == [] || (s[0] != '/' && s[|s| - 1] != '/'))
  {
    TrimSlashesInner(s);
    if s == [] || (s[0] != '/' && s[|s| - 1] != '/') {
      assert TrimLeading(s) == s;
    }
  }

  /** Trimming is idempotent. */
  lemma TrimSlashesIdempotent(s: string)
    ensures TrimSlashes(TrimSlashes(s)) == TrimSlashes(s)
  {
    TrimSlashesInner(s);
    TrimSlashesFixed(TrimSlashes(s));
  }

  /** A string trims to the empty string exactly when it is made of slashes only. */
  lemma TrimSlashesEmpty(s: string)
    ensures TrimSlashes(s) == [] <==> forall i :: 0 <= i < |s| ==> s[i] == '/'
  {
    TrimSlashesInner(s);
    if forall i :: 0 <= i < |s| ==> s[i] == '/' {
      TrimLeadingSuffix(s);
    }
  }

  /**
   * When two strings free of `sep` are each followed by `sep`, equal
   * concatenations determine both halves.
   */
  lemma SplitAtSeparator(a1: string, b1: string, a2: string, b2: string, sep: char)
    requires forall i :: 0 <= i < |a1| ==> a1[i] != sep
    requires forall i :: 0 <= i < |a2| ==> a2[i] != sep
    requires a1 + [sep] + b1 == a2 + [sep] + b2
    ensures a1 == a2 && b1 == b2
  {
    SplitAfterPart(a1, sep, b1);
    SplitAfterPart(a2, sep, b2);
    assert a1 == ([a1] + Split(b1, sep))[0] == ([a2] + Split(b2, sep))[0] == a2;
    var s := a1 + [sep] + b1;
    assert b1 == s[|a1| + 1..] == b2;
  }

  /** Equal strings with the same prefix agree after it. */
  lemma CancelPrefix(prefix: string, x: string, y: string)
    requires prefix + x == prefix + y
    ensures x == y
  {
    assert x == (prefix + x)[|prefix|..];
    assert y == (prefix + y)[|prefix|..];
  }
}
