/** The PHP string functions the model relies on: trim, rtrim and ltrim,
    ltrim with a one-character list (used to re-anchor paths), str_replace of
    one character by nothing, explode and implode on a one-character
    separator, a one-character regex replacement and empty(). */
module PhpStrings {

  /** The characters trim() strips by default: space, tab, line feed,
      carriage return, NUL and vertical tab. */
  predicate IsBlank(c: char)
  {
    c == ' ' || c == '\t' || c == '\n' || c == '\r' || c == '\0' || c == '\U{000B}'
  }

  predicate AllBlank(s: string)
  {
    forall i :: 0 <= i < |s| ==> IsBlank(s[i])
  }

  /** `ltrim($s)`: r is what is left of s after its leading blanks. */
  function TrimLeft(s: string): (r: string)
    ensures |r| <= |s|
    ensures r == [] || !IsBlank(r[0])
  {
    if s != [] && IsBlank(s[0]) then TrimLeft(s[1..]) else s
  }

  /** `rtrim($s)`: r is what is left of s before its trailing blanks. */
  function TrimRight(s: string): (r: string)
    ensures |r| <= |s|
    ensures r == [] || (r[0] == s[0] && !IsBlank(r[|r| - 1]))
  {
    if s != [] && IsBlank(s[|s| - 1]) then TrimRight(s[..|s| - 1]) else s
  }

  /** `trim($s)`. */
  function Trim(s: string): (r: string)
    ensures |r| <= |s|
    ensures r == [] || (!IsBlank(r[0]) && !IsBlank(r[|r| - 1]))
  {
    TrimRight(TrimLeft(s))
  }

  /** ltrim() removes a blank prefix: s is the blank text a, then ltrim(s). */
  lemma {:induction false} TrimLeftSplit(s: string) returns (a: string)
    ensures AllBlank(a) && s == a + TrimLeft(s)
  {
    if s != [] && IsBlank(s[0]) {
      var a' := TrimLeftSplit(s[1..]);
      a := [s[0]] + a';
      assert TrimLeft(s) == TrimLeft(s[1..]);
      assert s == [s[0]] + (a' + TrimLeft(s[1..]));
      assert forall i :: 1 <= i < |a| ==> a[i] == a'[i - 1];
    } else {
      a := [];
    }
  }

  /** rtrim() removes a blank suffix: s is rtrim(s), then the blank text b. */
  lemma {:induction false} TrimRightSplit(s: string) returns (b: string)
    ensures AllBlank(b) && s == TrimRight(s) + b
  {
    if s != [] && IsBlank(s[|s| - 1]) {
      var b' := TrimRightSplit(s[..|s| - 1]);
      b := b' + [s[|s| - 1]];
      assert s == s[..|s| - 1] + [s[|s| - 1]];
    } else {
      b := [];
    }
  }

  /** trim() removes a blank prefix and a blank suffix and nothing else:
      s is the blank text a, then trim(s), then the blank text b. */
  lemma {:induction false} TrimShape(s: string) returns (a: string, b: string)
    ensures AllBlank(a) && AllBlank(b)
    ensures s == a + Trim(s) + b
  {
    a := TrimLeftSplit(s);
    b := TrimRightSplit(TrimLeft(s));
  }

  lemma {:induction false} TrimLeftPadded(a: string, t: string)
    requires AllBlank(a)
    requires t == [] || !IsBlank(t[0])
    ensures TrimLeft(a + t) == t
  {
    if a != [] {
      assert (a + t)[1..] == a[1..] + t;
      TrimLeftPadded(a[1..], t);
    } else {
      assert a + t == t;
    }
  }

  lemma {:induction false} TrimRightPadded(t: string, b: string)
    requires AllBlank(b)
    requires t == [] || !IsBlank(t[|t| - 1])
    ensures TrimRight(t + b) == t
  {
    if b != [] {
      var b' := b[..|b| - 1];
      assert t + b == (t + b') + [b[|b| - 1]];
      TrimRightPadded(t, b');
    } else {
      assert t + b == t;
    }
  }

  /** The converse of TrimShape: trim() gives back any text that neither starts
      nor ends with a blank from between any blank padding. */
  lemma {:induction false} TrimOfPadded(a: string, m: string, b: string)
    requires AllBlank(a) && AllBlank(b)
    requires m == [] || (!IsBlank(m[0]) && !IsBlank(m[|m| - 1]))
    ensures Trim(a + m + b) == m
  {
    if m == [] {
      assert a + m + b == a + b;
      assert AllBlank(a + b);
      TrimLeftPadded(a + b, []);
      assert a + b + [] == a + b;
    } else {
      assert a + m + b == a + (m + b);
      TrimLeftPadded(a, m + b);
      TrimRightPadded(m, b);
    }
  }

  /** `ltrim($s, $c)` with a single character: r is s without its leading c's. */
  function TrimLeftChar(s: string, c: char): (r: string)
    ensures |r| <= |s| && r == s[|s| - |r|..]
    ensures forall i :: 0 <= i < |s| - |r| ==> s[i] == c
    ensures r == [] || r[0] != c
  {
    if s != [] && s[0] == c then TrimLeftChar(s[1..], c) else s
  }

  /** `str_replace($c, '', $s)` for a single character c: every c is deleted
      and every other character is kept, in order (RemoveCharConcat). */
  function RemoveChar(s: string, c: char): (r: string)
    ensures c !in r
    ensures forall x :: x != c ==> (x in r <==> x in s)
    ensures |r| <= |s|
    ensures |s| == 1 ==> r == if s[0] == c then [] else s
  {
    if s == [] then []
    else if s[0] == c then RemoveChar(s[1..], c)
    else [s[0]] + RemoveChar(s[1..], c)
  }

  /** Deleting works piece by piece: the text removed from a + b is what is
      removed from a followed by what is removed from b. With the one-character
      case of RemoveChar's contract this fixes the result entirely. */
  lemma {:induction false} RemoveCharConcat(a: string, b: string, c: char)
    ensures RemoveChar(a + b, c) == RemoveChar(a, c) + RemoveChar(b, c)
  {
    if a != [] {
      assert (a + b)[1..] == a[1..] + b;
      RemoveCharConcat(a[1..], b, c);
    } else {
      assert a + b == b;
    }
  }

  /** Removing a character that does not occur changes nothing. */
  lemma {:induction false} RemoveAbsentChar(s: string, c: char)
    requires c !in s
    ensures RemoveChar(s, c) == s
  {
    if s != [] {
      RemoveAbsentChar(s[1..], c);
    }
  }

  /** `explode($sep, $s)` with a one-character separator. */
  function Explode(s: string, sep: char): (r: seq<string>)
    ensures |r| >= 1
    ensures forall i :: 0 <= i < |r| ==> sep !in r[i]
  {
    if s == [] then [[]]
    else
      var rest := Explode(s[1..], sep);
      if s[0] == sep then [[]] + rest
      else [[s[0]] + rest[0]] + rest[1..]
  }

  /** A character absent from the text is absent from every piece. */
  lemma {:induction false} ExplodeAvoids(s: string, sep: char, c: char)
    requires c !in s
    ensures forall i :: 0 <= i < |Explode(s, sep)| ==> c !in Explode(s, sep)[i]
  {
    if s != [] {
      ExplodeAvoids(s[1..], sep, c);
    }
  }

  /** `implode($sep, $parts)` with a one-character separator. */
  function Implode(parts: seq<string>, sep: char): string
  {
    if parts == [] then []
    else if |parts| == 1 then parts[0]
    else parts[0] + [sep] + Implode(parts[1..], sep)
  }

  /** Joining the pieces explode() cut gives back the original text. */
  lemma {:induction false} ImplodeExplode(s: string, sep: char)
    ensures Implode(Explode(s, sep), sep) == s
  {
    if s != [] {
      var rest := Explode(s[1..], sep);
      ImplodeExplode(s[1..], sep);
      if s[0] == sep {
        assert ([[]] + rest)[1..] == rest;
        assert s == [sep] + s[1..];
      } else {
        var r := [[s[0]] + rest[0]] + rest[1..];
        if |rest| == 1 {
          assert s == [s[0]] + rest[0];
        } else {
          assert r[1..] == rest[1..];
          assert Implode(rest, sep) == rest[0] + [sep] + Implode(rest[1..], sep);
          assert s == [s[0]] + rest[0] + [sep] + Implode(rest[1..], sep);
        }
      }
    }
  }

  lemma {:induction false} ExplodeNoSep(p: string, sep: char)
    requires sep !in p
    ensures Explode(p, sep) == [p]
  {
    if p != [] {
      ExplodeNoSep(p[1..], sep);
      assert [p[0]] + p[1..] == p;
    }
  }

  lemma {:induction false} ExplodeAfterPiece(p: string, t: string, sep: char)
    requires sep !in p
    ensures Explode(p + [sep] + t, sep) == [p] + Explode(t, sep)
  {
    if p == [] {
      assert p + [sep] + t == [sep] + t;
      assert ([sep] + t)[1..] == t;
    } else {
      var s := p + [sep] + t;
      assert s[1..] == p[1..] + [sep] + t;
      ExplodeAfterPiece(p[1..], t, sep);
      assert [p[0]] + p[1..] == p;
    }
  }

  /** explode() cuts joined pieces back into the same pieces, as long as no
      piece holds the separator. */
  lemma {:induction false} ExplodeImplode(parts: seq<string>, sep: char)
    requires |parts| >= 1
    requires forall i :: 0 <= i < |parts| ==> sep !in parts[i]
    ensures Explode(Implode(parts, sep), sep) == parts
  {
    if |parts| == 1 {
      ExplodeNoSep(parts[0], sep);
    } else {
      ExplodeImplode(parts[1..], sep);
      ExplodeAfterPiece(parts[0], Implode(parts[1..], sep), sep);
      assert [parts[0]] + parts[1..] == parts;
    }
  }

  /** Every character of the joined text is the separator or comes from a piece. */
  lemma {:induction false} ImplodeChars(parts: seq<string>, sep: char, c: char)
    requires c != sep
    requires forall i :: 0 <= i < |parts| ==> c !in parts[i]
    ensures c !in Implode(parts, sep)
  {
    if |parts| > 1 {
      ImplodeChars(parts[1..], sep, c);
    }
  }

  /** The joined text starts with the first piece and ends with the last. */
  lemma {:induction false} ImplodeEnds(parts: seq<string>, sep: char)
    requires |parts| >= 1 && forall i :: 0 <= i < |parts| ==> parts[i] != []
    ensures var s := Implode(parts, sep);
      s != [] && s[0] == parts[0][0] && s[|s| - 1] == parts[|parts| - 1][|parts[|parts| - 1]| - 1]
  {
    if |parts| > 1 {
      ImplodeEnds(parts[1..], sep);
    }
  }

  /** `preg_replace('#' . $from . '#', $to, $s)` for a single literal character:
      every occurrence of from becomes to. */
  function ReplaceChar(s: string, from: char, to: char): (r: string)
    ensures |r| == |s|
    ensures forall i :: 0 <= i < |s| ==> r[i] == (if s[i] == from then to else s[i])
  {
    if s == [] then []
    else [if s[0] == from then to else s[0]] + ReplaceChar(s[1..], from, to)
  }

  lemma {:induction false} ReplaceCharConcat(a: string, b: string, from: char, to: char)
    ensures ReplaceChar(a + b, from, to) == ReplaceChar(a, from, to) + ReplaceChar(b, from, to)
  {
    if a != [] {
      assert (a + b)[1..] == a[1..] + b;
      ReplaceCharConcat(a[1..], b, from, to);
    } else {
      assert a + b == b;
    }
  }

  lemma {:induction false} ReplaceAbsentChar(s: string, from: char, to: char)
    requires from !in s
    ensures ReplaceChar(s, from, to) == s
  {
    if s != [] {
      ReplaceAbsentChar(s[1..], from, to);
    }
  }

  /** Position of the first occurrence of c in s. */
  function IndexOf(s: string, c: char): (r: nat)
    requires c in s
    ensures r < |s| && s[r] == c && forall j :: 0 <= j < r ==> s[j] != c
  {
    if s[0] == c then 0 else 1 + IndexOf(s[1..], c)
  }

  /** The first occurrence is the position holding c with no c before it. */
  lemma IndexOfAt(s: string, c: char, i: nat)
    requires i < |s| && s[i] == c && forall j :: 0 <= j < i ==> s[j] != c
    ensures IndexOf(s, c) == i
  {
  }

  /** PHP's empty() on a string: the empty string and "0" are empty. */
  predicate IsEmpty(s: string)
  {
    s == "" || s == "0"
  }

  /** empty() by length: the empty string is empty, a one-character string is
      empty exactly when that character is the digit zero, and no longer string
      is empty, not even "00" or " 0". */
  lemma EmptyByLength(s: string)
    ensures |s| == 0 ==> IsEmpty(s)
    ensures |s| == 1 ==> (IsEmpty(s) <==> s[0] == '0')
    ensures |s| >= 2 ==> !IsEmpty(s)
  {
    if |s| == 1 && s[0] == '0' {
      assert s == "0";
    }
  }
}
