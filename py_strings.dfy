/** The Python string built-ins the caller relies on, on `seq<char>`:
    `str.lstrip(chars)` and `str.rstrip(chars)` (which strip a SET of
    characters, not a prefix or suffix), `str.startswith`, the `in`
    operator, and `str.split(sep)` with its inverse `sep.join`. */
module PyStrings {

  /** `s.lstrip(chars)`: drops every leading character that occurs in `chars`. */
  function LStrip(s: string, chars: string): string {
    if |s| > 0 && s[0] in chars then LStrip(s[1..], chars) else s
  }

  /** lstrip removes a prefix made only of strip characters, and the longest
      one: what is left is empty or starts with a character outside the set. */
  lemma {:induction false} LStripSpec(s: string, chars: string)
    ensures var r := LStrip(s, chars);
      && |r| <= |s| && r == s[|s| - |r|..]
      && (r == [] || r[0] !in chars)
      && forall i :: 0 <= i < |s| - |r| ==> s[i] in chars
  {
    if |s| > 0 && s[0] in chars {
      LStripSpec(s[1..], chars);
      assert forall i :: 1 <= i < |s| ==> s[i] == s[1..][i - 1];
    }
  }

  /** `s.rstrip(chars)`: drops every trailing character that occurs in `chars`. */
  function RStrip(s: string, chars: string): string {
    if |s| > 0 && s[|s| - 1] in chars then RStrip(s[..|s| - 1], chars) else s
  }

  /** rstrip removes the longest suffix made only of strip characters. */
  lemma {:induction false} RStripSpec(s: string, chars: string)
    ensures var r := RStrip(s, chars);
      && |r| <= |s| && r == s[..|r|]
      && (r == [] || r[|r| - 1] !in chars)
      && forall i :: |r| <= i < |s| ==> s[i] in chars
  {
    if |s| > 0 && s[|s| - 1] in chars {
      RStripSpec(s[..|s| - 1], chars);
      var r := RStrip(s, chars);
      assert s[..|s| - 1][..|r|] == s[..|r|];
    }
  }

  /** Characters of `p` drawn from the strip set are removed whatever their
      order or repetition: lstrip is a character-set strip. */
  lemma {:induction false} LStripSkipsSetPrefix(p: string, s: string, chars: string)
    requires forall i :: 0 <= i < |p| ==> p[i] in chars
    ensures LStrip(p + s, chars) == LStrip(s, chars)
  {
    if p != [] {
      assert (p + s)[0] == p[0];
      assert (p + s)[1..] == p[1..] + s;
      assert LStrip(p + s, chars) == LStrip(p[1..] + s, chars);
      LStripSkipsSetPrefix(p[1..], s, chars);
    } else {
      assert p + s == s;
    }
  }

  /** `s.startswith(p)`. */
  predicate StartsWith(s: string, p: string) {
    |p| <= |s| && s[..|p|] == p
  }

  /** `sub in s`. */
  predicate Contains(s: string, sub: string) {
    exists i :: 0 <= i <= |s| && StartsWith(s[i..], sub)
  }

  /** `s.split(sep)` for a one-character separator: the pieces between
      consecutive occurrences of `sep`, always at least one. */
  function Split(s: string, sep: char): (parts: seq<string>)
    ensures |parts| >= 1
    ensures forall k :: 0 <= k < |parts| ==> sep !in parts[k]
  {
    if s == [] then [""]
    else
      var rest := Split(s[1..], sep);
      if s[0] == sep then [""] + rest
      else [[s[0]] + rest[0]] + rest[1..]
  }

  /** `sep.join(parts)`. */
  function JoinWith(parts: seq<string>, sep: char): string
    requires |parts| >= 1
  {
    if |parts| == 1 then parts[0] else parts[0] + [sep] + JoinWith(parts[1..], sep)
  }

  /** Joining the pieces back with the separator gives the original string. */
  lemma {:induction false} JoinSplit(s: string, sep: char)
    ensures JoinWith(Split(s, sep), sep) == s
  {
    if s != [] {
      var rest := Split(s[1..], sep);
      JoinSplit(s[1..], sep);
      if s[0] == sep {
        assert ([""] + rest)[1..] == rest;
      } else {
        var parts := [[s[0]] + rest[0]] + rest[1..];
        if |rest| == 1 {
          assert parts == [[s[0]] + rest[0]];
        } else {
          assert parts[1..] == rest[1..];
          assert JoinWith(rest, sep) == rest[0] + [sep] + JoinWith(rest[1..], sep);
        }
      }
    }
  }

  /** Splitting a join of separator-free pieces gives the pieces back. */
  lemma {:induction false} SplitJoin(parts: seq<string>, sep: char)
    requires |parts| >= 1
    requires forall k :: 0 <= k < |parts| ==> sep !in parts[k]
    ensures Split(JoinWith(parts, sep), sep) == parts
    decreases |parts|, |parts[0]|
  {
    var p := parts[0];
    if |parts| == 1 {
      SplitWord(p, [], sep);
    } else {
      SplitJoin(parts[1..], sep);
      SplitWord(p, parts[1..], sep);
    }
  }

  /** Splitting `w + sep + join(more)` where `w` is separator-free. */
  lemma {:induction false} SplitWord(w: string, more: seq<string>, sep: char)
    requires sep !in w
    requires |more| >= 1 ==> Split(JoinWith(more, sep), sep) == more
    ensures |more| == 0 ==> Split(w, sep) == [w]
    ensures |more| >= 1 ==> Split(w + [sep] + JoinWith(more, sep), sep) == [w] + more
  {
    if |more| == 0 {
      if w != [] {
        SplitWord(w[1..], more, sep);
        assert [w[0]] + w[1..] == w;
      }
    } else {
      var j := JoinWith(more, sep);
      var s := w + [sep] + j;
      if w == [] {
        assert s[1..] == j;
      } else {
        assert s[1..] == w[1..] + [sep] + j;
        SplitWord(w[1..], more, sep);
        var rest := Split(s[1..], sep);
        assert rest == [w[1..]] + more;
        assert [w[0]] + w[1..] == w;
      }
    }
  }

  /** `s.split(sep)[-1]`: the text after the last separator. */
  function LastSegment(s: string, sep: char): (r: string)
    ensures sep !in r
    ensures |r| <= |s| && r == s[|s| - |r|..]
    ensures |r| == |s| || s[|s| - |r| - 1] == sep
  {
    LastSegmentIsSuffix(s, sep);
    var parts := Split(s, sep);
    parts[|parts| - 1]
  }

  lemma LastSegmentIsSuffix(s: string, sep: char)
    ensures var parts := Split(s, sep); var r := parts[|parts| - 1];
      |r| <= |s| && r == s[|s| - |r|..] && (|r| == |s| || s[|s| - |r| - 1] == sep)
  {
    JoinSplit(s, sep);
    JoinEndsWithLast(Split(s, sep), sep);
  }

  /** A join ends with its last piece, after a separator unless that piece
      is the only one. */
  lemma {:induction false} JoinEndsWithLast(parts: seq<string>, sep: char)
    requires |parts| >= 1
    ensures var j := JoinWith(parts, sep); var r := parts[|parts| - 1];
      && |r| <= |j| && r == j[|j| - |r|..]
      && (|parts| == 1 || (|r| < |j| && j[|j| - |r| - 1] == sep))
    decreases |parts|
  {
    if |parts| > 1 {
      var more := parts[1..];
      JoinEndsWithLast(more, sep);
      var tail := JoinWith(more, sep);
      var r := more[|more| - 1];
      assert r == parts[|parts| - 1];
      var head := parts[0] + [sep];
      assert JoinWith(parts, sep) == head + tail;
      if |more| == 1 {
        assert tail == r;
        assert (head + tail)[|head| - 1] == sep;
      } else {
        assert tail[|tail| - |r| - 1] == sep;
        assert (head + tail)[|head| + |tail| - |r| - 1] == tail[|tail| - |r| - 1];
      }
      assert (head + tail)[|head| + |tail| - |r|..] == tail[|tail| - |r|..];
    }
  }
}
