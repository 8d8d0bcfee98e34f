/**
 * The few Python `str` operations the downloader relies on: `split` with a
 * separator string, `strip()` (Unicode whitespace) and `strip(chars)`.
 */
module PyStr {
  import opened Wrappers

  /** The characters for which Python's `str.isspace()` holds; `str.strip()` removes these. */
  const Whitespace: set<char> :=
    {'\t', '\n', '\U{B}', '\U{C}', '\r', '\U{1C}', '\U{1D}', '\U{1E}', '\U{1F}', ' ',
     '\U{85}', '\U{A0}', '\U{1680}',
     '\U{2000}', '\U{2001}', '\U{2002}', '\U{2003}', '\U{2004}', '\U{2005}',
     '\U{2006}', '\U{2007}', '\U{2008}', '\U{2009}', '\U{200A}',
     '\U{2028}', '\U{2029}', '\U{202F}', '\U{205F}', '\U{3000}'}

  /** Python truthiness of a string that may be None: neither None nor empty. */
  predicate Truthy(s: Option<string>)
  {
    s.Some? && s.value != ""
  }

  /** `pat` occurs in `s` starting at index `i`. */
  predicate OccursAt(s: string, pat: string, i: nat)
  {
    i + |pat| <= |s| && s[i..i + |pat|] == pat
  }

  /** `pat` occurs nowhere in `s`. */
  predicate Free(s: string, pat: string)
  {
    forall j: nat :: j <= |s| ==> !OccursAt(s, pat, j)
  }

  /** The least index at or after `i` where `pat` occurs in `s`. */
  function FindFrom(s: string, pat: string, i: nat): (r: Option<nat>)
    requires i <= |s|
    ensures r.Some? ==> i <= r.value && OccursAt(s, pat, r.value)
    ensures r.Some? ==> forall j: nat :: i <= j < r.value ==> !OccursAt(s, pat, j)
    ensures r.None? ==> forall j: nat :: i <= j ==> !OccursAt(s, pat, j)
    decreases |s| - i
  {
    if OccursAt(s, pat, i) then Some(i)
    else if i == |s| then None
    else FindFrom(s, pat, i + 1)
  }

  /** Python's `s.find(pat)`, with None for -1. */
  function IndexOf(s: string, pat: string): (r: Option<nat>)
    ensures r.Some? ==> OccursAt(s, pat, r.value)
    ensures r.Some? ==> forall j: nat :: j < r.value ==> !OccursAt(s, pat, j)
    ensures r.None? <==> Free(s, pat)
  {
    FindFrom(s, pat, 0)
  }

  /** Python's `pat in s`. */
  predicate Contains(s: string, pat: string)
  {
    IndexOf(s, pat).Some?
  }

  /** An occurrence with none before it is the one `IndexOf` finds. */
  lemma IndexOfIs(s: string, pat: string, i: nat)
    requires OccursAt(s, pat, i)
    requires forall j: nat :: j < i ==> !OccursAt(s, pat, j)
    ensures IndexOf(s, pat) == Some(i)
  {
  }

  /**
   * Python's `s.split(sep)` for a non-empty separator (an empty one raises
   * ValueError): scanning left to right, each occurrence of `sep` that does
   * not overlap an earlier one ends a piece.
   */
  function Split(s: string, sep: string): (r: seq<string>)
    requires sep != []
    ensures |r| >= 1
    decreases |s|
  {
    if |s| < |sep| then [s]
    else if s[..|sep|] == sep then [""] + Split(s[|sep|..], sep)
    else
      var rest := Split(s[1..], sep);
      [[s[0]] + rest[0]] + rest[1..]
  }

  /** Python's `sep.join(pieces)`. */
  function Join(pieces: seq<string>, sep: string): string
  {
    if pieces == [] then []
    else if |pieces| == 1 then pieces[0]
    else pieces[0] + sep + Join(pieces[1..], sep)
  }

  /** Joining after putting `x` in front of the first piece puts `x` in front of the join. */
  lemma JoinPrepend(x: string, pieces: seq<string>, sep: string)
    requires |pieces| >= 1
    ensures Join([x + pieces[0]] + pieces[1..], sep) == x + Join(pieces, sep)
  {
    if |pieces| > 1 {
      assert ([x + pieces[0]] + pieces[1..])[1..] == pieces[1..];
    }
  }

  /** A join of several pieces holds a separator before the last piece. */
  lemma {:induction false} JoinLongerThanLast(pieces: seq<string>, sep: string)
    requires |pieces| > 1
    ensures |Join(pieces, sep)| >= |sep| + |pieces[|pieces| - 1]|
    decreases |pieces|
  {
    if |pieces| > 2 {
      JoinLongerThanLast(pieces[1..], sep);
    }
  }

  /** Joining the pieces of a split with the same separator gives back the string. */
  lemma {:induction false} JoinSplit(s: string, sep: string)
    requires sep != []
    ensures Join(Split(s, sep), sep) == s
    decreases |s|
  {
    if |s| < |sep| {
    } else if s[..|sep|] == sep {
      JoinSplit(s[|sep|..], sep);
      assert s == [] + sep + s[|sep|..];
    } else {
      var rest := Split(s[1..], sep);
      JoinSplit(s[1..], sep);
      JoinPrepend([s[0]], rest, sep);
      assert s == [s[0]] + s[1..];
    }
  }

  /** Occurrences in `s[1..]` are those in `s` shifted by one. */
  lemma OccursAtTail(s: string, pat: string, j: nat)
    requires |s| >= 1
    ensures OccursAt(s[1..], pat, j) <==> OccursAt(s, pat, j + 1)
  {
    if j + 1 + |pat| <= |s| {
      assert s[1..][j..j + |pat|] == s[j + 1..j + 1 + |pat|];
    }
  }

  /** Splitting a string that does not start with the separator extends the first piece of its tail's split. */
  lemma SplitPrepend(s: string, sep: string)
    requires sep != [] && |s| >= 1 && !OccursAt(s, sep, 0)
    ensures var rest := Split(s[1..], sep);
      Split(s, sep) == [[s[0]] + rest[0]] + rest[1..]
  {
    if |s| < |sep| {
      assert Split(s[1..], sep) == [s[1..]];
      assert [s[0]] + s[1..] == s;
    }
  }

  /** A string with no occurrence of the separator is its own only piece. */
  lemma {:induction false} SplitWithout(s: string, sep: string)
    requires sep != []
    requires forall j: nat :: j <= |s| ==> !OccursAt(s, sep, j)
    ensures Split(s, sep) == [s]
    decreases |s|
  {
    if |s| >= 1 {
      forall j: nat | j <= |s[1..]| ensures !OccursAt(s[1..], sep, j) {
        OccursAtTail(s, sep, j);
      }
      SplitWithout(s[1..], sep);
      SplitPrepend(s, sep);
      assert [s[0]] + s[1..] == s;
    }
  }

  /** The first piece ends at the first occurrence of the separator; the rest is the split of what follows it. */
  lemma {:induction false} SplitAt(s: string, sep: string, i: nat)
    requires sep != [] && OccursAt(s, sep, i)
    requires forall j: nat :: j < i ==> !OccursAt(s, sep, j)
    ensures Split(s, sep) == [s[..i]] + Split(s[i + |sep|..], sep)
    decreases i
  {
    if i == 0 {
      assert s[..|sep|] == sep;
      assert s[..0] == "";
    } else {
      var t := s[1..];
      OccursAtTail(s, sep, i - 1);
      forall j: nat | j < i - 1 ensures !OccursAt(t, sep, j) {
        OccursAtTail(s, sep, j);
      }
      SplitAt(t, sep, i - 1);
      SplitAtStep(s, sep, i);
    }
  }

  /** One step of `SplitAt`: from the tail's split to the whole string's. */
  lemma SplitAtStep(s: string, sep: string, i: nat)
    requires sep != [] && 0 < i && i + |sep| <= |s| && !OccursAt(s, sep, 0)
    requires Split(s[1..], sep) == [s[1..][..i - 1]] + Split(s[1..][i - 1 + |sep|..], sep)
    ensures Split(s, sep) == [s[..i]] + Split(s[i + |sep|..], sep)
  {
    var t := s[1..];
    SplitPrepend(s, sep);
    assert [s[0]] + t[..i - 1] == s[..i];
    assert t[i - 1 + |sep|..] == s[i + |sep|..];
  }

  /**
   * The split against `find`: with no occurrence the string is the only
   * piece; otherwise the first piece ends at the first occurrence and the
   * rest is the split of what follows it.
   */
  lemma SplitAtFirst(s: string, sep: string)
    requires sep != []
    ensures IndexOf(s, sep).None? ==> Split(s, sep) == [s]
    ensures IndexOf(s, sep).Some? ==>
      var i := IndexOf(s, sep).value;
      Split(s, sep) == [s[..i]] + Split(s[i + |sep|..], sep)
  {
    match IndexOf(s, sep)
    case None => SplitWithout(s, sep);
    case Some(i) => SplitAt(s, sep, i);
  }

  /** A single-character separator that is absent splits nothing off. */
  lemma {:induction false} SplitNoSep(s: string, c: char)
    requires c !in s
    ensures Split(s, [c]) == [s]
    decreases |s|
  {
    if |s| >= 1 {
      assert s[..1] == [s[0]];
      SplitNoSep(s[1..], c);
      assert [s[0]] + s[1..] == s;
    }
  }

  /** With a one-character separator, the split of `a + [c] + b` is the split of `a` followed by that of `b`. */
  lemma {:induction false} SplitConcat(a: string, c: char, b: string)
    ensures Split(a + [c] + b, [c]) == Split(a, [c]) + Split(b, [c])
    decreases |a|
  {
    var s := a + [c] + b;
    if a == [] {
      assert s[..1] == [c];
      assert s[1..] == b;
    } else {
      assert s[..1] == [a[0]];
      assert s[1..] == a[1..] + [c] + b;
      SplitConcat(a[1..], c, b);
      if a[0] == c {
        assert a[..1] == [c];
      } else {
        assert a[..1] == [a[0]];
        var r := Split(a[1..], [c]);
        assert (r + Split(b, [c]))[0] == r[0];
        assert (r + Split(b, [c]))[1..] == r[1..] + Split(b, [c]);
      }
    }
  }

  /** Splitting the join of separator-free pieces gives the pieces back. */
  lemma {:induction false} SplitJoin(pieces: seq<string>, c: char)
    requires |pieces| >= 1
    requires forall k :: 0 <= k < |pieces| ==> c !in pieces[k]
    ensures Split(Join(pieces, [c]), [c]) == pieces
    decreases |pieces|
  {
    SplitNoSep(pieces[0], c);
    if |pieces| > 1 {
      SplitJoin(pieces[1..], c);
      SplitConcat(pieces[0], c, Join(pieces[1..], [c]));
      assert pieces == [pieces[0]] + pieces[1..];
    }
  }

  /** No piece of a split on one character contains that character. */
  lemma {:induction false} SplitPiecesFree(s: string, c: char)
    ensures forall k :: 0 <= k < |Split(s, [c])| ==> c !in Split(s, [c])[k]
    decreases |s|
  {
    if |s| >= 1 {
      assert s[..1] == [s[0]];
      SplitPiecesFree(s[1..], c);
    }
  }

  /** The first piece of a one-character split is the prefix of `s` up to the first `c`, or all of `s`. */
  lemma {:induction false} SplitFirstPiece(s: string, c: char)
    ensures var p := Split(s, [c])[0];
      && |p| <= |s| && p == s[..|p|] && c !in p
      && (|p| == |s| || s[|p|] == c)
    decreases |s|
  {
    if |s| >= 1 {
      assert s[..1] == [s[0]];
      SplitFirstPiece(s[1..], c);
      if s[0] != c {
        var q := Split(s[1..], [c])[0];
        assert s[..|q| + 1] == [s[0]] + s[1..][..|q|];
      }
    }
  }

  /** The last piece of a one-character split is the suffix of `s` after the last `c`, or all of `s`. */
  lemma {:induction false} SplitLastPiece(s: string, c: char)
    ensures var ps := Split(s, [c]); var p := ps[|ps| - 1];
      && |p| <= |s| && p == s[|s| - |p|..] && c !in p
      && (|p| == |s| || s[|s| - |p| - 1] == c)
    decreases |s|
  {
    if |s| >= 1 {
      var t := s[1..];
      assert s[..1] == [s[0]];
      SplitLastPiece(t, c);
      var rs := Split(t, [c]);
      var q := rs[|rs| - 1];
      assert s[|s| - |q|..] == t[|t| - |q|..];
      var ps := Split(s, [c]);
      if s[0] == c {
        assert ps == [""] + rs;
        assert ps[|ps| - 1] == q;
        if |q| == |t| {
          assert s[|s| - |q| - 1] == s[0];
        } else {
          assert s[|s| - |q| - 1] == t[|t| - |q| - 1];
        }
      } else if |rs| == 1 {
        JoinSplit(t, [c]);
        assert q == t;
        assert ps == [[s[0]] + t];
        assert [s[0]] + t == s;
      } else {
        JoinSplit(t, [c]);
        JoinLongerThanLast(rs, [c]);
        assert ps == [[s[0]] + rs[0]] + rs[1..];
        assert ps[|ps| - 1] == q;
        assert s[|s| - |q| - 1] == t[|t| - |q| - 1];
      }
    }
  }

  /** Python's `s.lstrip(chars)` with the characters given as a set. */
  function StripStart(s: string, chars: set<char>): (r: string)
    ensures |r| <= |s| && r == s[|s| - |r|..]
    ensures r == [] || r[0] !in chars
    ensures forall k :: 0 <= k < |s| - |r| ==> s[k] in chars
  {
    if s != [] && s[0] in chars then StripStart(s[1..], chars) else s
  }

  /** Python's `s.rstrip(chars)` with the characters given as a set. */
  function StripEnd(s: string, chars: set<char>): (r: string)
    ensures |r| <= |s| && r == s[..|r|]
    ensures r == [] || r[|r| - 1] !in chars
    ensures forall k :: |r| <= k < |s| ==> s[k] in chars
  {
    if s != [] && s[|s| - 1] in chars then StripEnd(s[..|s| - 1], chars) else s
  }

  /** `r` is `s` with a run of `chars` removed at each end, the kept part starting at `i`. */
  predicate StrippedAt(s: string, chars: set<char>, r: string, i: nat)
  {
    && i + |r| <= |s| && r == s[i..i + |r|]
    && (forall k :: 0 <= k < i ==> s[k] in chars)
    && (forall k :: i + |r| <= k < |s| ==> s[k] in chars)
  }

  /** Python's `s.strip(chars)`; `Strip(s, Whitespace)` is `s.strip()`. */
  function Strip(s: string, chars: set<char>): (r: string)
    ensures r == [] || (r[0] !in chars && r[|r| - 1] !in chars)
    ensures StrippedAt(s, chars, r, |s| - |StripStart(s, chars)|)
  {
    var t := StripStart(s, chars);
    var r := StripEnd(t, chars);
    StripInfix(s, chars, t, r);
    r
  }

  lemma StripInfix(s: string, chars: set<char>, t: string, r: string)
    requires t == StripStart(s, chars) && r == StripEnd(t, chars)
    ensures r == [] || r[0] == t[0]
    ensures StrippedAt(s, chars, r, |s| - |t|)
  {
    var i := |s| - |t|;
    assert t == s[i..];
    assert r == t[..|r|];
    assert s[i..][..|r|] == s[i..i + |r|];
    forall k | i + |r| <= k < |s| ensures s[k] in chars {
      assert s[k] == t[k - i];
    }
  }

  /** Stripping adds no character. */
  lemma StripKeepsOut(s: string, chars: set<char>, c: char)
    requires c !in s
    ensures c !in Strip(s, chars)
  {
    var r := Strip(s, chars);
    var i := |s| - |StripStart(s, chars)|;
    assert forall k :: 0 <= k < |r| ==> r[k] == s[i + k];
  }

  /** A string that neither starts nor ends with one of `chars` is left as it is. */
  lemma StripUnchanged(s: string, chars: set<char>)
    requires s == [] || (s[0] !in chars && s[|s| - 1] !in chars)
    ensures Strip(s, chars) == s
  {
  }

  /** Stripping is idempotent. */
  lemma StripIdempotent(s: string, chars: set<char>)
    ensures Strip(Strip(s, chars), chars) == Strip(s, chars)
  {
    StripUnchanged(Strip(s, chars), chars);
  }
}
