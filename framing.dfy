/** Newline framing of the endpoint's byte stream: where the first line
    terminator is, what `BytesIO.readline()` returns, and the complete lines
    a byte string holds. */
module Framing {
  import opened Wrappers

  /** One octet of a payload fragment. */
  newtype byte = x: int | 0 <= x < 256

  /** `ord("\n")`, the terminator the decoder looks for. */
  const NL: byte := 10

  /** Position of the first terminator in `s`, if there is one. */
  function FirstNewline(s: seq<byte>): (r: Option<nat>)
    ensures r.None? <==> NL !in s
    ensures r.Some? ==> r.value < |s| && s[r.value] == NL && NL !in s[..r.value]
  {
    if |s| == 0 then None
    else if s[0] == NL then Some(0)
    else match FirstNewline(s[1..])
      case None => None
      case Some(i) => assert s[..i + 1] == [s[0]] + s[1..][..i]; Some(i + 1)
  }

  /** A terminator with no terminator before it is the first one. */
  lemma FirstNewlineAt(s: seq<byte>, i: nat)
    requires i < |s| && s[i] == NL && NL !in s[..i]
    ensures FirstNewline(s) == Some(i)
  {
  }

  /** `readline()` on a `BytesIO` positioned at `pos`: the bytes up to and
      including the first terminator at or after `pos`, or every remaining
      byte when there is none. */
  function ReadLine(buf: seq<byte>, pos: nat): (line: seq<byte>)
    requires pos <= |buf|
  {
    match FirstNewline(buf[pos..])
    case None => buf[pos..]
    case Some(i) =>
      assert buf[pos..pos + i + 1][..i] == buf[pos..][..i];
      buf[pos..pos + i + 1]
  }

  lemma ReadLineSpec(buf: seq<byte>, pos: nat)
    requires pos <= |buf|
    ensures var line := ReadLine(buf, pos);
     && line <= buf[pos..]
     && ((NL in buf[pos..]) <==> (line != [] && line[|line| - 1] == NL))
     && (line != [] && line[|line| - 1] == NL ==> NL !in line[..|line| - 1])
     && (NL !in buf[pos..] ==> line == buf[pos..])
  {
    match FirstNewline(buf[pos..])
    case None =>
    case Some(i) =>
      assert buf[pos..pos + i + 1][..i] == buf[pos..][..i];
  }

  /** A line that `readline()` returns with its terminator: it lies in the
      buffer at `pos`, and its terminator is the first one there. */
  lemma ReadLineEnds(buf: seq<byte>, pos: nat)
    requires pos <= |buf|
    requires var line := ReadLine(buf, pos); line != [] && line[|line| - 1] == NL
    ensures var line := ReadLine(buf, pos);
      && pos + |line| <= |buf| && line == buf[pos..][..|line|]
      && NL !in line[..|line| - 1]
  {
    match FirstNewline(buf[pos..])
    case None =>
    case Some(i) =>
      assert buf[pos..pos + i + 1] == buf[pos..][..i + 1];
  }

  /** A line that `readline()` returns with its terminator is the first line
      of the bytes from `pos` on, whatever `rest` follows them, and what
      follows it is the rest of the buffer, then `rest`. */
  lemma LineAhead(buf: seq<byte>, pos: nat, rest: seq<byte>)
    requires pos <= |buf|
    requires var line := ReadLine(buf, pos); line != [] && line[|line| - 1] == NL
    ensures var line := ReadLine(buf, pos); var i := |line| - 1; var u := buf[pos..] + rest;
      && pos + |line| <= |buf| && FirstNewline(u) == Some(i) && line[..i] == u[..i]
      && u[i + 1..] == buf[pos + |line|..] + rest
  {
    var line := ReadLine(buf, pos);
    ReadLineEnds(buf, pos);
    var i := |line| - 1;
    var x := buf[pos..];
    SplitFront(x, rest, i);
    SplitFront(x, rest, |line|);
    assert x[|line|..] == buf[pos + |line|..];
    FirstNewlineAt(x + rest, i);
  }

  /** Cutting `x + y` at a point inside `x`. */
  lemma SplitFront(x: seq<byte>, y: seq<byte>, n: nat)
    requires n <= |x|
    ensures (x + y)[..n] == x[..n] && (x + y)[n..] == x[n..] + y
    ensures n < |x| ==> (x + y)[n] == x[n]
  {
  }

  /** The complete lines of `s`, terminators removed, in order. */
  function Lines(s: seq<byte>): seq<seq<byte>>
    decreases |s|
  {
    match FirstNewline(s)
    case None => []
    case Some(i) => [s[..i]] + Lines(s[i + 1..])
  }

  /** The unterminated bytes after the last terminator of `s`. */
  function Tail(s: seq<byte>): seq<byte>
    decreases |s|
  {
    match FirstNewline(s)
    case None => s
    case Some(i) => Tail(s[i + 1..])
  }

  /** The bytes of the given lines, each followed by its terminator. */
  function Terminated(lines: seq<seq<byte>>): seq<byte> {
    if lines == [] then [] else lines[0] + [NL] + Terminated(lines[1..])
  }

  /** No line contains a terminator of its own. */
  predicate LineFree(lines: seq<seq<byte>>) {
    forall k :: 0 <= k < |lines| ==> NL !in lines[k]
  }

  /** The concatenation of the payloads of a fragment sequence. */
  function Concat(fragments: seq<seq<byte>>): seq<byte> {
    if fragments == [] then [] else fragments[0] + Concat(fragments[1..])
  }

  /** Every byte string is its complete lines, each terminated, followed by
      an unterminated tail; no line and not the tail holds a terminator. */
  lemma {:induction false} LinesReassemble(s: seq<byte>)
    ensures LineFree(Lines(s)) && NL !in Tail(s)
    ensures Terminated(Lines(s)) + Tail(s) == s
    decreases |s|
  {
    var r := FirstNewline(s);
    if r.Some? {
      var i := r.value;
      var rest := s[i + 1..];
      LinesReassemble(rest);
      LinesStep(s, i, Lines(rest), Tail(rest));
    }
  }

  /** One step of `LinesReassemble`: a first line in front of a reassembled rest. */
  lemma {:induction false} LinesStep(s: seq<byte>, i: nat, ls: seq<seq<byte>>, t: seq<byte>)
    requires FirstNewline(s) == Some(i)
    requires Lines(s[i + 1..]) == ls && Tail(s[i + 1..]) == t
    requires LineFree(ls) && NL !in t && Terminated(ls) + t == s[i + 1..]
    ensures LineFree(Lines(s)) && NL !in Tail(s)
    ensures Terminated(Lines(s)) + Tail(s) == s
  {
    LinesUnfold(s, i);
    assert Lines(s) == [s[..i]] + ls && Tail(s) == t;
    LineFreeCons(s[..i], ls);
    TerminatedCons(s[..i], ls);
    SplitAtNewline(s, i);
    AppendAssoc(s[..i] + [NL], Terminated(ls), t);
  }

  lemma AppendAssoc(a: seq<byte>, b: seq<byte>, c: seq<byte>)
    ensures (a + b) + c == a + (b + c)
  {
  }

  lemma LinesUnfold(s: seq<byte>, i: nat)
    requires FirstNewline(s) == Some(i)
    ensures Lines(s) == [s[..i]] + Lines(s[i + 1..]) && Tail(s) == Tail(s[i + 1..])
  {
  }

  lemma SplitAtNewline(s: seq<byte>, i: nat)
    requires i < |s| && s[i] == NL
    ensures s == s[..i] + [NL] + s[i + 1..]
  {
  }

  lemma LineFreeCons(l: seq<byte>, ls: seq<seq<byte>>)
    requires NL !in l && LineFree(ls)
    ensures LineFree([l] + ls)
  {
    var all := [l] + ls;
    forall k | 0 <= k < |all| ensures NL !in all[k] {
      if k > 0 {
        assert all[k] == ls[k - 1];
      }
    }
  }

  lemma TerminatedCons(l: seq<byte>, ls: seq<seq<byte>>)
    ensures Terminated([l] + ls) == l + [NL] + Terminated(ls)
  {
    assert ([l] + ls)[0] == l && ([l] + ls)[1..] == ls;
  }

  /** The decomposition of `LinesReassemble` is unique: the lines of
      terminated, terminator-free lines followed by a terminator-free tail
      are exactly those lines, and the tail is exactly that tail. */
  lemma {:induction false} LinesUnique(lines: seq<seq<byte>>, tail: seq<byte>)
    requires LineFree(lines) && NL !in tail
    ensures Lines(Terminated(lines) + tail) == lines
    ensures Tail(Terminated(lines) + tail) == tail
    decreases |lines|
  {
    var s := Terminated(lines) + tail;
    if lines == [] {
      assert s == tail;
    } else {
      var l := lines[0];
      var rest := Terminated(lines[1..]) + tail;
      assert s == l + [NL] + rest;
      assert s[..|l|] == l;
      FirstNewlineAt(s, |l|);
      assert s[|l| + 1..] == rest;
      assert LineFree(lines[1..]) by {
        forall k | 0 <= k < |lines[1..]| ensures NL !in lines[1..][k] {
          assert lines[1..][k] == lines[k + 1];
        }
      }
      LinesUnique(lines[1..], tail);
      assert [l] + lines[1..] == lines;
    }
  }

  lemma {:induction false} TerminatedAppend(a: seq<seq<byte>>, b: seq<seq<byte>>)
    ensures Terminated(a + b) == Terminated(a) + Terminated(b)
    decreases |a|
  {
    if a == [] {
      assert a + b == b;
    } else {
      assert (a + b)[0] == a[0] && (a + b)[1..] == a[1..] + b;
      TerminatedAppend(a[1..], b);
    }
  }

  /** Cutting a byte string right after a terminator cuts its line sequence
      there too: no line is lost, merged or split at such a cut. */
  lemma LinesAppend(a: seq<byte>, b: seq<byte>)
    requires a == [] || a[|a| - 1] == NL
    ensures Lines(a + b) == Lines(a) + Lines(b)
    ensures Tail(a + b) == Tail(b)
  {
    var la, lb, tb := Lines(a), Lines(b), Tail(b);
    LinesReassemble(b);
    TerminatedWhole(a);
    TerminatedAppend(la, lb);
    AppendAssoc(Terminated(la), Terminated(lb), tb);
    LineFreeAppend(la, lb);
    LinesUnique(la + lb, tb);
  }

  /** A byte string that ends with a terminator is its lines, all terminated. */
  lemma TerminatedWhole(a: seq<byte>)
    requires a == [] || a[|a| - 1] == NL
    ensures LineFree(Lines(a)) && a == Terminated(Lines(a))
  {
    LinesReassemble(a);
    var t := Tail(a);
    assert forall j :: 0 <= j < |t| ==> a[|a| - |t| + j] == t[j];
  }

  lemma LineFreeAppend(la: seq<seq<byte>>, lb: seq<seq<byte>>)
    requires LineFree(la) && LineFree(lb)
    ensures LineFree(la + lb)
  {
    forall k | 0 <= k < |la + lb| ensures NL !in (la + lb)[k] {
      if k >= |la| {
        assert (la + lb)[k] == lb[k - |la|];
      } else {
        assert (la + lb)[k] == la[k];
      }
    }
  }

  /** Concatenation distributes over appending fragment sequences. */
  lemma {:induction false} ConcatAppend(f: seq<seq<byte>>, g: seq<seq<byte>>)
    ensures Concat(f + g) == Concat(f) + Concat(g)
    decreases |f|
  {
    if f == [] {
      assert f + g == g;
    } else {
      assert (f + g)[0] == f[0] && (f + g)[1..] == f[1..] + g;
      ConcatAppend(f[1..], g);
    }
  }
}
