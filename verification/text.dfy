/**
  The string operations the price endpoint uses on its `ids` parameter and on
  the upstream keys: `trim`, `toLowerCase`, `split(',')` and `join(',')`.
*/
module Text {

  /** JavaScript white space and line terminators: the characters `trim` removes. */
  predicate IsSpace(c: char)
  {
    || c == '\t' || c == '\n' || c == '\U{000B}' || c == '\U{000C}' || c == '\r' || c == ' '
    || c == '\U{00A0}' || c == '\U{1680}' || ('\U{2000}' <= c <= '\U{200A}')
    || c == '\U{2028}' || c == '\U{2029}' || c == '\U{202F}' || c == '\U{205F}'
    || c == '\U{3000}' || c == '\U{FEFF}'
  }

  /** No white space at either end. */
  predicate IsTrimmed(s: string)
  {
    s == [] || (!IsSpace(s[0]) && !IsSpace(s[|s| - 1]))
  }

  /** Nothing but white space. */
  predicate AllSpace(w: string)
  {
    forall k :: 0 <= k < |w| ==> IsSpace(w[k])
  }

  /** The index of the first character at or after `from` that is not white space, or `|s|`. */
  function FirstNonSpace(s: string, from: nat): (n: nat)
    requires from <= |s|
    ensures from <= n <= |s|
    ensures forall k :: from <= k < n ==> IsSpace(s[k])
    ensures n < |s| ==> !IsSpace(s[n])
    decreases |s| - from
  {
    if from < |s| && IsSpace(s[from]) then FirstNonSpace(s, from + 1) else from
  }

  /** The index just after the last character before `upto` that is not white space, or 0. */
  function EndOfNonSpace(s: string, upto: nat): (n: nat)
    requires upto <= |s|
    ensures n <= upto
    ensures forall k :: n <= k < upto ==> IsSpace(s[k])
    ensures n > 0 ==> !IsSpace(s[n - 1])
  {
    if upto > 0 && IsSpace(s[upto - 1]) then EndOfNonSpace(s, upto - 1) else upto
  }

  /** `String.prototype.trim`: drops the white space at both ends; a string of white space only
      becomes empty. */
  function Trim(s: string): (t: string)
    ensures IsTrimmed(t)
    ensures var i := FirstNonSpace(s, 0);
      && i + |t| <= |s| && t == s[i..i + |t|]
      && AllSpace(s[..i]) && AllSpace(s[i + |t|..])
  {
    var i, j := FirstNonSpace(s, 0), EndOfNonSpace(s, |s|);
    if i < j then s[i..j] else []
  }

  /** Trimming a trimmed string changes nothing. */
  lemma TrimmedIsFixed(s: string)
    requires IsTrimmed(s)
    ensures Trim(s) == s
  {
    if s != [] {
      assert FirstNonSpace(s, 0) == 0;
      assert EndOfNonSpace(s, |s|) == |s|;
      assert s[0..|s|] == s;
    }
  }

  const Upper: string := "ABCDEFGHIJKLMNOPQRSTUVWXYZ"
  const Lowers: string := "abcdefghijklmnopqrstuvwxyz"

  /** Each upper-case letter lowers to the letter at the same place in the lower-case alphabet. */
  lemma AlphabetsAlign()
    ensures |Upper| == |Lowers| == 26
    ensures forall j :: 0 <= j < 26 ==> LowerChar(Upper[j]) == Lowers[j]
  {
  }

  /** ASCII upper case to lower case; every other character is kept. */
  function LowerChar(c: char): char
  {
    if 'A' <= c <= 'Z' then (c as int + 32) as char else c
  }

  /** `toLowerCase`, character by character: each upper-case letter becomes the lower-case letter
      at the same place in the alphabet, and every other character stays where it is. */
  function Lower(s: string): (t: string)
    ensures |t| == |s| && IsLower(t)
    ensures forall i, j :: 0 <= i < |s| && 0 <= j < 26 && s[i] == Upper[j] ==> t[i] == Lowers[j]
    ensures forall i :: 0 <= i < |s| && !('A' <= s[i] <= 'Z') ==> t[i] == s[i]
  {
    AlphabetsAlign();
    seq(|s|, i requires 0 <= i < |s| => LowerChar(s[i]))
  }

  /** No upper-case letter. */
  predicate IsLower(s: string)
  {
    forall i :: 0 <= i < |s| ==> !('A' <= s[i] <= 'Z')
  }

  /** Lowering gives a lower-case string and is idempotent. */
  lemma LowerIsLower(s: string)
    ensures IsLower(Lower(s)) && Lower(Lower(s)) == Lower(s)
  {
  }

  /** A lower-case string is left as it is. */
  lemma LowerFixesLower(s: string)
    requires IsLower(s)
    ensures Lower(s) == s
  {
  }

  /** Lowering touches no white space and no separator, so it keeps a string trimmed. */
  lemma LowerKeepsTrimmed(s: string)
    requires IsTrimmed(s)
    ensures IsTrimmed(Lower(s))
  {
  }

  /** An ASCII letter of either case. */
  predicate IsLetter(c: char)
  {
    'A' <= c <= 'Z' || 'a' <= c <= 'z'
  }

  /** The same string up to the case of its letters. */
  predicate Alike(f: string, g: string)
  {
    |f| == |g| && forall i :: 0 <= i < |f| ==> LowerChar(f[i]) == LowerChar(g[i])
  }

  /** Two strings lower-case alike exactly when they are the same up to case. */
  lemma LowerAlike(f: string, g: string)
    ensures Lower(f) == Lower(g) <==> Alike(f, g)
  {
    if Alike(f, g) {
      assert forall i :: 0 <= i < |f| ==> Lower(f)[i] == Lower(g)[i];
    }
    if Lower(f) == Lower(g) {
      assert forall i :: 0 <= i < |f| ==> LowerChar(f[i]) == Lower(f)[i];
    }
  }

  /** A character that is not a letter is matched, up to case, only by itself. */
  lemma NonLetterAlike(c: char, d: char)
    requires LowerChar(c) == LowerChar(d) && !IsLetter(c)
    ensures d == c
  {
  }

  /** Case does not move the start of the non-white-space part. */
  lemma {:induction false} FirstNonSpaceAlike(f: string, g: string, from: nat)
    requires Alike(f, g) && from <= |f|
    ensures FirstNonSpace(f, from) == FirstNonSpace(g, from)
    decreases |f| - from
  {
    if from < |f| {
      if IsSpace(f[from]) {
        NonLetterAlike(f[from], g[from]);
      }
      if IsSpace(g[from]) {
        NonLetterAlike(g[from], f[from]);
      }
      FirstNonSpaceAlike(f, g, from + 1);
    }
  }

  /** Case does not move the end of the non-white-space part. */
  lemma {:induction false} EndOfNonSpaceAlike(f: string, g: string, upto: nat)
    requires Alike(f, g) && upto <= |f|
    ensures EndOfNonSpace(f, upto) == EndOfNonSpace(g, upto)
  {
    if upto > 0 {
      if IsSpace(f[upto - 1]) {
        NonLetterAlike(f[upto - 1], g[upto - 1]);
      }
      if IsSpace(g[upto - 1]) {
        NonLetterAlike(g[upto - 1], f[upto - 1]);
      }
      EndOfNonSpaceAlike(f, g, upto - 1);
    }
  }

  /** Trimming strings that are the same up to case gives strings that are the same up to case. */
  lemma TrimAlike(f: string, g: string)
    requires Alike(f, g)
    ensures Alike(Trim(f), Trim(g))
  {
    FirstNonSpaceAlike(f, g, 0);
    EndOfNonSpaceAlike(f, g, |f|);
    var i, j := FirstNonSpace(f, 0), EndOfNonSpace(f, |f|);
    if i < j {
      SliceAlike(f, g, i, j);
    }
  }

  /** Slices at the same place of strings alike up to case are alike up to case. */
  lemma SliceAlike(f: string, g: string, i: nat, j: nat)
    requires Alike(f, g) && i <= j <= |f|
    ensures Alike(f[i..j], g[i..j])
  {
    forall k | 0 <= k < j - i
      ensures LowerChar(f[i..j][k]) == LowerChar(g[i..j][k])
    {
      assert f[i..j][k] == f[i + k] && g[i..j][k] == g[i + k];
    }
  }

  /** `s.split(sep)`: the pieces between separators, empty ones included; never an empty list. */
  function Split(s: string, sep: char): (parts: seq<string>)
    ensures |parts| >= 1
    ensures forall i :: 0 <= i < |parts| ==> sep !in parts[i]
  {
    if s == [] then [[]] else Prepend(s[0], Split(s[1..], sep), sep)
  }

  /** The pieces of `[c] + s` from the pieces of `s`: a separator opens a new empty piece, any
      other character joins the first piece. */
  function Prepend(c: char, rest: seq<string>, sep: char): (parts: seq<string>)
    requires |rest| >= 1
    requires forall i :: 0 <= i < |rest| ==> sep !in rest[i]
    ensures |parts| >= 1
    ensures forall i :: 0 <= i < |parts| ==> sep !in parts[i]
  {
    if c == sep then [[]] + rest else [[c] + rest[0]] + rest[1..]
  }

  /** Prepending a character only touches the first piece. */
  lemma PrependAppend(c: char, head: seq<string>, tail: seq<string>, sep: char)
    requires |head| >= 1
    requires forall i :: 0 <= i < |head| ==> sep !in head[i]
    requires forall i :: 0 <= i < |tail| ==> sep !in tail[i]
    ensures Prepend(c, head + tail, sep) == Prepend(c, head, sep) + tail
  {
    if c != sep {
      assert (head + tail)[1..] == head[1..] + tail;
    }
  }

  /** `parts.join(sep)`. */
  function Join(parts: seq<string>, sep: char): string
  {
    if |parts| == 0 then []
    else if |parts| == 1 then parts[0]
    else parts[0] + [sep] + Join(parts[1..], sep)
  }

  /** A string without separators splits into itself alone. */
  lemma {:induction false} SplitWhole(s: string, sep: char)
    requires sep !in s
    ensures Split(s, sep) == [s]
  {
    if s != [] {
      SplitWhole(s[1..], sep);
      assert s == [s[0]] + s[1..];
    }
  }

  /** Splitting distributes over a separator: the pieces of `a`, then the pieces of `b`. */
  lemma {:induction false} SplitAround(a: string, b: string, sep: char)
    ensures Split(a + [sep] + b, sep) == Split(a, sep) + Split(b, sep)
  {
    if a == [] {
      assert a + [sep] + b == [sep] + b;
      assert ([sep] + b)[1..] == b;
    } else {
      SplitAround(a[1..], b, sep);
      assert (a + [sep] + b)[1..] == a[1..] + [sep] + b;
      PrependAppend(a[0], Split(a[1..], sep), Split(b, sep), sep);
    }
  }

  /** Joining the pieces gives back the string. */
  lemma {:induction false} JoinSplit(s: string, sep: char)
    ensures Join(Split(s, sep), sep) == s
  {
    if s != [] {
      JoinSplit(s[1..], sep);
      var rest := Split(s[1..], sep);
      if s[0] == sep {
        assert Split(s, sep) == [[]] + rest;
        assert s == [sep] + s[1..];
      } else {
        var parts := Split(s, sep);
        assert parts == [[s[0]] + rest[0]] + rest[1..];
        if |rest| == 1 {
          assert s == [s[0]] + rest[0];
        } else {
          assert rest == [rest[0]] + rest[1..];
          assert Join(rest, sep) == rest[0] + [sep] + Join(rest[1..], sep);
          assert parts[1..] == rest[1..];
          assert s == [s[0]] + (rest[0] + [sep] + Join(rest[1..], sep));
        }
      }
    }
  }

  /** Splitting a join of separator-free pieces gives back the pieces. */
  lemma {:induction false} SplitJoin(parts: seq<string>, sep: char)
    requires |parts| >= 1
    requires forall i :: 0 <= i < |parts| ==> sep !in parts[i]
    ensures Split(Join(parts, sep), sep) == parts
  {
    SplitWhole(parts[0], sep);
    if |parts| > 1 {
      SplitJoin(parts[1..], sep);
      SplitAround(parts[0], Join(parts[1..], sep), sep);
      assert parts == [parts[0]] + parts[1..];
    }
  }

  /** Two lists of pieces that are the same piece by piece up to case. */
  predicate PiecesAlike(ps: seq<string>, qs: seq<string>)
  {
    |ps| == |qs| && forall i :: 0 <= i < |ps| ==> Alike(ps[i], qs[i])
  }

  /** Adding a character alike up to case in front of a string alike up to case. */
  lemma ConsAlike(c: char, d: char, x: string, y: string)
    requires LowerChar(c) == LowerChar(d) && Alike(x, y)
    ensures Alike([c] + x, [d] + y)
  {
    forall k | 0 <= k < |x| + 1
      ensures LowerChar(([c] + x)[k]) == LowerChar(([d] + y)[k])
    {
      if k > 0 {
        assert ([c] + x)[k] == x[k - 1] && ([d] + y)[k] == y[k - 1];
      }
    }
  }

  /** `Prepend` keeps pieces alike up to case when both characters are, and both or neither is
      the separator. */
  lemma PrependAlike(c: char, d: char, rf: seq<string>, rg: seq<string>, sep: char)
    requires |rf| >= 1 && (forall i :: 0 <= i < |rf| ==> sep !in rf[i])
    requires |rg| >= 1 && (forall i :: 0 <= i < |rg| ==> sep !in rg[i])
    requires PiecesAlike(rf, rg) && LowerChar(c) == LowerChar(d) && (c == sep <==> d == sep)
    ensures PiecesAlike(Prepend(c, rf, sep), Prepend(d, rg, sep))
  {
    var pf, pg := Prepend(c, rf, sep), Prepend(d, rg, sep);
    if c == sep {
      assert forall i :: 1 <= i < |pf| ==> pf[i] == rf[i - 1] && pg[i] == rg[i - 1];
    } else {
      ConsAlike(c, d, rf[0], rg[0]);
      assert forall i :: 1 <= i < |pf| ==> pf[i] == rf[i] && pg[i] == rg[i];
    }
  }

  /** Splitting strings alike up to case on a separator that is not a letter gives pieces alike
      up to case. */
  lemma {:induction false} SplitAlike(f: string, g: string, sep: char)
    requires Alike(f, g) && !IsLetter(sep)
    ensures PiecesAlike(Split(f, sep), Split(g, sep))
  {
    if f != [] {
      SliceAlike(f, g, 1, |f|);
      SplitAlike(f[1..], g[1..], sep);
      if f[0] == sep {
        NonLetterAlike(f[0], g[0]);
      }
      if g[0] == sep {
        NonLetterAlike(g[0], f[0]);
      }
      PrependAlike(f[0], g[0], Split(f[1..], sep), Split(g[1..], sep), sep);
    }
  }
}
