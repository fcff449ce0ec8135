/** JavaScript string primitives the backend relies on: `String.prototype.trim`
    (Mongoose's `trim: true` setter), `toLowerCase` (the `lowercase: true`
    setter) and `split(" ")` (the Authorization header parser). */
module Text {

  /** ECMAScript WhiteSpace and LineTerminator code points: the characters
      that `trim` strips from both ends. */
  predicate IsSpace(c: char) {
    || c == '\t' || c == '\n' || c == '\U{000B}' || c == '\U{000C}' || c == '\r'
    || c == ' ' || c == '\U{00A0}' || c == '\U{1680}'
    || ('\U{2000}' <= c <= '\U{200A}')
    || c == '\U{2028}' || c == '\U{2029}' || c == '\U{202F}' || c == '\U{205F}'
    || c == '\U{3000}' || c == '\U{FEFF}'
  }

  /** Neither end of `s` is whitespace. */
  predicate IsTrimmed(s: string) {
    |s| == 0 || (!IsSpace(s[0]) && !IsSpace(s[|s| - 1]))
  }

  /** Drops leading whitespace: the result is a suffix of `s`, everything
      dropped is whitespace, and the result does not start with whitespace. */
  function TrimStart(s: string): (r: string)
    ensures |r| <= |s| && r == s[|s| - |r|..]
    ensures forall k :: 0 <= k < |s| - |r| ==> IsSpace(s[k])
    ensures |r| == 0 || !IsSpace(r[0])
  {
    if |s| > 0 && IsSpace(s[0]) then TrimStart(s[1..]) else s
  }

  /** Drops trailing whitespace: the result is a prefix of `s`, everything
      dropped is whitespace, and the result does not end with whitespace. */
  function TrimEnd(s: string): (r: string)
    ensures |r| <= |s| && r == s[..|r|]
    ensures forall k :: |r| <= k < |s| ==> IsSpace(s[k])
    ensures |r| == 0 || !IsSpace(r[|r| - 1])
  {
    if |s| > 0 && IsSpace(s[|s| - 1]) then TrimEnd(s[..|s| - 1]) else s
  }

  /** `String.prototype.trim`. */
  function Trim(s: string): (r: string)
    ensures IsTrimmed(r)
  {
    EndTrimKeepsStart(TrimStart(s));
    TrimEnd(TrimStart(s))
  }

  /** Trimming the end keeps a non-whitespace first character in place. */
  lemma EndTrimKeepsStart(t: string)
    requires |t| == 0 || !IsSpace(t[0])
    ensures IsTrimmed(TrimEnd(t))
  {
    var r := TrimEnd(t);
    if |r| > 0 {
      assert r[0] == t[0];
    }
  }

  /** What `trim` keeps: the slice `s[i..j]`, with only whitespace outside
      it (and, by `Trim`'s contract, no whitespace at either of its ends). */
  lemma TrimIsSlice(s: string) returns (i: nat, j: nat)
    ensures i <= j <= |s| && Trim(s) == s[i..j]
    ensures forall k :: 0 <= k < i ==> IsSpace(s[k])
    ensures forall k :: j <= k < |s| ==> IsSpace(s[k])
  {
    i, j := SliceOfTrimmed(s, TrimStart(s), TrimEnd(TrimStart(s)));
  }

  /** A string `r` got by dropping whitespace from the front of `s` (giving
      `t`) and then from the back of `t` is a slice of `s` with only
      whitespace outside it. */
  lemma SliceOfTrimmed(s: string, t: string, r: string) returns (i: nat, j: nat)
    requires |t| <= |s| && t == s[|s| - |t|..]
    requires forall k :: 0 <= k < |s| - |t| ==> IsSpace(s[k])
    requires |r| <= |t| && r == t[..|r|]
    requires forall k :: |r| <= k < |t| ==> IsSpace(t[k])
    ensures i <= j <= |s| && r == s[i..j]
    ensures forall k :: 0 <= k < i ==> IsSpace(s[k])
    ensures forall k :: j <= k < |s| ==> IsSpace(s[k])
  {
    i, j := |s| - |t|, |s| - |t| + |r|;
    PrefixOfSuffix(s, i, t, r);
    SpacesAfter(s, i, t, |r|);
  }

  /** A prefix of the suffix `s[i..]` is a slice of `s`. */
  lemma PrefixOfSuffix(s: string, i: nat, t: string, r: string)
    requires i <= |s| && t == s[i..]
    requires |r| <= |t| && r == t[..|r|]
    ensures s[i..i + |r|] == r
  {
  }

  /** Whitespace from position `n` of the suffix `s[i..]` on is whitespace
      from position `i + n` of `s` on. */
  lemma SpacesAfter(s: string, i: nat, t: string, n: nat)
    requires i <= |s| && t == s[i..]
    requires forall k :: n <= k < |t| ==> IsSpace(t[k])
    ensures forall k :: i + n <= k < |s| ==> IsSpace(s[k])
  {
    forall k | i + n <= k < |s| ensures IsSpace(s[k]) {
      assert s[k] == t[k - i];
    }
  }

  /** Trimming is idempotent, and it leaves an already trimmed string alone. */
  lemma TrimFixesTrimmed(s: string)
    ensures IsTrimmed(s) ==> Trim(s) == s
    ensures Trim(Trim(s)) == Trim(s)
  {
    forall t | IsTrimmed(t) ensures Trim(t) == t {
      assert TrimStart(t) == t;
      assert TrimEnd(t) == t;
    }
  }

  /** ASCII case folding of one character. */
  function LowerChar(c: char): char {
    if 'A' <= c <= 'Z' then (c as int - 'A' as int + 'a' as int) as char else c
  }

  /** No ASCII upper-case letter occurs in `s`. */
  predicate IsLower(s: string) {
    forall k :: 0 <= k < |s| ==> !('A' <= s[k] <= 'Z')
  }

  /** `toLowerCase`, restricted to the ASCII letters. */
  function Lower(s: string): (r: string)
    ensures |r| == |s|
  {
    if |s| == 0 then [] else [LowerChar(s[0])] + Lower(s[1..])
  }

  /** Lower-casing folds each character on its own and leaves no upper-case
      letter. */
  lemma {:induction false} LowerAt(s: string)
    ensures forall k :: 0 <= k < |s| ==> Lower(s)[k] == LowerChar(s[k])
    ensures IsLower(Lower(s))
  {
    if |s| > 0 {
      LowerAt(s[1..]);
      assert forall k :: 1 <= k < |s| ==> Lower(s)[k] == Lower(s[1..])[k - 1];
    }
  }

  /** Lower-casing changes exactly the strings that hold an upper-case letter. */
  lemma LowerFixesLower(s: string)
    ensures Lower(s) == s <==> IsLower(s)
  {
    LowerAt(s);
  }

  /** Lower-casing and trimming commute, because case folding neither creates
      nor removes whitespace; so the order Mongoose runs the two setters in
      does not matter. */
  lemma {:induction false} LowerTrimCommute(s: string)
    ensures Lower(Trim(s)) == Trim(Lower(s))
  {
    LowerTrimStartCommute(s);
    LowerTrimEndCommute(TrimStart(s));
  }

  /** Case folding maps whitespace to itself and letters to letters. */
  lemma LowerCharKeepsSpace(c: char)
    ensures IsSpace(LowerChar(c)) == IsSpace(c)
  {
    if 'A' <= c <= 'Z' {
      assert 'a' <= LowerChar(c) <= 'z';
    }
  }

  /** Lower-casing commutes with dropping the last character. */
  lemma {:induction false} LowerDropLast(s: string)
    requires |s| > 0
    ensures Lower(s[..|s| - 1]) == Lower(s)[..|s| - 1]
    ensures Lower(s)[|s| - 1] == LowerChar(s[|s| - 1])
  {
    if |s| > 1 {
      LowerDropLast(s[1..]);
      assert s[1..][..|s| - 2] == s[..|s| - 1][1..];
    }
  }

  lemma {:induction false} LowerTrimStartCommute(s: string)
    ensures Lower(TrimStart(s)) == TrimStart(Lower(s))
  {
    if |s| > 0 {
      LowerCharKeepsSpace(s[0]);
      if IsSpace(s[0]) {
        LowerTrimStartCommute(s[1..]);
        assert Lower(s)[1..] == Lower(s[1..]);
      }
    }
  }

  lemma {:induction false} LowerTrimEndCommute(s: string)
    ensures Lower(TrimEnd(s)) == TrimEnd(Lower(s))
  {
    if |s| > 0 {
      LowerDropLast(s);
      LowerCharKeepsSpace(s[|s| - 1]);
      if IsSpace(s[|s| - 1]) {
        LowerTrimEndCommute(s[..|s| - 1]);
      }
    }
  }

  /** `s.split(" ")`: the pieces between single spaces, empty pieces included,
      so `"a  b"` gives `["a", "", "b"]` and `""` gives `[""]`. */
  function Split(s: string): (r: seq<string>)
    ensures |r| >= 1
    ensures forall k :: 0 <= k < |r| ==> ' ' !in r[k]
    ensures |r| == Spaces(s) + 1
    ensures ' ' !in s ==> r == [s]
  {
    if |s| == 0 then [""]
    else
      var rest := Split(s[1..]);
      assert ' ' !in s ==> ' ' !in s[1..] by {
        if ' ' in s[1..] {
          var k :| 0 <= k < |s[1..]| && s[1..][k] == ' ';
          assert s[k + 1] == ' ';
        }
      }
      assert [s[0]] + s[1..] == s;
      if s[0] == ' ' then [""] + rest
      else [[s[0]] + rest[0]] + rest[1..]
  }

  /** Number of space characters in `s`. */
  function Spaces(s: string): nat {
    if |s| == 0 then 0 else (if s[0] == ' ' then 1 else 0) + Spaces(s[1..])
  }

  /** `Spaces` counts a space exactly when there is one. */
  lemma {:induction false} NoSpacesMeansNone(s: string)
    ensures Spaces(s) == 0 <==> ' ' !in s
  {
    if |s| > 0 {
      NoSpacesMeansNone(s[1..]);
      assert s == [s[0]] + s[1..];
    }
  }

  /** `fields.join(" ")`, the inverse of `Split`. */
  function Join(fields: seq<string>): string
    requires |fields| >= 1
  {
    if |fields| == 1 then fields[0] else fields[0] + " " + Join(fields[1..])
  }

  /** Splitting then joining gives back the header unchanged. */
  lemma {:induction false} JoinSplit(s: string)
    ensures Join(Split(s)) == s
  {
    if |s| > 0 {
      var rest := Split(s[1..]);
      JoinSplit(s[1..]);
      if s[0] != ' ' {
        if |rest| == 1 {
          assert Split(s) == [[s[0]] + rest[0]];
        } else {
          assert Split(s)[1..] == rest[1..];
        }
      } else {
        assert Split(s)[1..] == rest;
      }
    }
  }

  /** Joining space-free fields then splitting gives back the same fields. */
  lemma {:induction false} SplitJoin(fields: seq<string>)
    requires |fields| >= 1
    requires forall k :: 0 <= k < |fields| ==> ' ' !in fields[k]
    ensures Split(Join(fields)) == fields
  {
    if |fields| == 1 {
    } else {
      SplitJoin(fields[1..]);
      SplitPrefixed(fields[0], Join(fields[1..]));
    }
  }

  /** A space-free word followed by one space splits off as the first field. */
  lemma {:induction false} SplitPrefixed(w: string, rest: string)
    requires ' ' !in w
    ensures Split(w + " " + rest) == [w] + Split(rest)
  {
    var s := w + " " + rest;
    if |w| == 0 {
      assert s[0] == ' ' && s[1..] == rest;
    } else {
      var tail := w[1..] + " " + rest;
      assert s[0] == w[0] && s[1..] == tail;
      assert ' ' !in w[1..] by {
        forall k | 0 <= k < |w[1..]| ensures w[1..][k] != ' ' {
          assert w[1..][k] == w[k + 1];
        }
      }
      SplitPrefixed(w[1..], rest);
      assert Split(tail) == [w[1..]] + Split(rest);
      assert [w[0]] + w[1..] == w;
      assert Split(s) == [[w[0]] + Split(tail)[0]] + Split(tail)[1..];
    }
  }
}
