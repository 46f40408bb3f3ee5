/** `get_log` of b2xx_side_channel.py: NUL-terminated lines read out of a raw buffer. */
module SideLog {
  const NUL: char := '\0'

  datatype Entry = Numbered(index: nat, line: string) | Plain(line: string)

  /** Each line is followed by its terminator. */
  function Encode(lines: seq<string>): string {
    if lines == [] then [] else lines[0] + [NUL] + Encode(lines[1..])
  }

  /** Lines are written one after the other, each closed by a NUL. */
  lemma {:induction false} EncodeConcat(a: seq<string>, b: seq<string>, line: string)
    ensures Encode(a + b) == Encode(a) + Encode(b)
    ensures Encode([line]) == line + ['\0']
  {
    assert [line][1..] == [] && line + [NUL] + [] == line + [NUL];
    if a == [] {
      assert a + b == b && Encode(a) + Encode(b) == Encode(b);
    } else {
      EncodeConcat(a[1..], b, line);
      assert (a + b)[1..] == a[1..] + b;
      assert a[0] + [NUL] + (Encode(a[1..]) + Encode(b)) == a[0] + [NUL] + Encode(a[1..]) + Encode(b);
    }
  }

  /** `raw.index(0, last)`, or the length where Python raises a ValueError. */
  function Terminator(raw: string): (i: nat)
    ensures i <= |raw|
  {
    if raw == [] || raw[0] == NUL then 0 else Terminator(raw[1..]) + 1
  }

  lemma {:induction false} FirstNul(raw: string)
    ensures var i := Terminator(raw); NUL !in raw[..i] && (i < |raw| ==> raw[i] == NUL)
  {
    if raw != [] && raw[0] != NUL {
      FirstNul(raw[1..]);
      var i := Terminator(raw[1..]);
      assert raw[..i + 1] == [raw[0]] + raw[1..][..i];
    }
  }

  function Split(raw: string): seq<string>
    decreases |raw|
  {
    var i := Terminator(raw);
    if i == 0 || i == |raw| then [] else [raw[..i]] + Split(raw[i + 1..])
  }

  ghost predicate AreLines(lines: seq<string>) {
    forall k :: 0 <= k < |lines| ==> lines[k] != [] && NUL !in lines[k]
  }

  /** What stops the reader: the end of the buffer, an empty line, or a missing terminator. */
  predicate Stops(rest: string) {
    rest == [] || rest[0] == NUL || NUL !in rest
  }

  lemma TerminatorOf(line: string, more: string)
    requires NUL !in line
    ensures Terminator(line + [NUL] + more) == |line|
  {
    var raw := line + [NUL] + more;
    FirstNul(raw);
    assert raw[|line|] == NUL;
    assert forall k :: 0 <= k < |line| ==> raw[k] == line[k];
    assert forall k :: 0 <= k < Terminator(raw) ==> raw[..Terminator(raw)][k] == raw[k];
  }

  lemma SplitCons(line: string, more: string)
    requires line != [] && NUL !in line
    ensures Split(line + [NUL] + more) == [line] + Split(more)
  {
    var raw := line + [NUL] + more;
    TerminatorOf(line, more);
    assert raw[..|line|] == line && raw[|line| + 1..] == more;
  }

  lemma SplitNone(raw: string)
    ensures Stops(raw) <==> Terminator(raw) == 0 || Terminator(raw) == |raw|
  {
    FirstNul(raw);
    assert raw[..|raw|] == raw;
    var i := Terminator(raw);
    assert 0 < i < |raw| ==> raw[..i][0] == raw[0] && raw[i] in raw;
  }

  lemma FirstLine(raw: string, i: nat)
    requires i == Terminator(raw) && 0 < i < |raw|
    ensures raw == raw[..i] + [NUL] + raw[i + 1..] && NUL !in raw[..i]
  {
    FirstNul(raw);
    SplitAt(raw, i);
  }

  lemma SplitAt(raw: string, i: nat)
    requires i < |raw|
    ensures raw == raw[..i] + [raw[i]] + raw[i + 1..]
  {
  }

  /** Reading back what was written: complete lines come out as they went in, whatever
      stops the reader behind them. */
  lemma {:induction false} SplitOfEncode(lines: seq<string>, rest: string)
    requires AreLines(lines) && Stops(rest)
    ensures Split(Encode(lines) + rest) == lines
  {
    if lines == [] {
      assert Encode(lines) + rest == rest;
      SplitNone(rest);
    } else {
      SplitOfEncode(lines[1..], rest);
      SplitCons(lines[0], Encode(lines[1..]) + rest);
      assert Encode(lines) + rest == lines[0] + [NUL] + (Encode(lines[1..]) + rest);
    }
  }

  ghost predicate Accounts(raw: string, lines: seq<string>, rest: string) {
    raw == Encode(lines) + rest && Stops(rest)
  }

  lemma AccountsCons(line: string, more: string, lines: seq<string>, rest: string)
    requires Accounts(more, lines, rest)
    ensures Accounts(line + [NUL] + more, [line] + lines, rest)
  {
    assert ([line] + lines)[1..] == lines;
    assert line + [NUL] + (Encode(lines) + rest) == (line + [NUL] + Encode(lines)) + rest;
  }

  /** The lines a buffer yields are non-empty, NUL-free and account for the whole buffer up to
      where the reader stops. With SplitOfEncode, they are the only such lines. */
  lemma {:induction false} SplitAccounts(raw: string)
    ensures AreLines(Split(raw))
    ensures exists rest :: Accounts(raw, Split(raw), rest)
    decreases |raw|
  {
    var i := Terminator(raw);
    SplitNone(raw);
    if i == 0 || i == |raw| {
      assert Accounts(raw, [], raw);
    } else {
      FirstLine(raw, i);
      SplitAccounts(raw[i + 1..]);
      var rest :| Accounts(raw[i + 1..], Split(raw[i + 1..]), rest);
      AccountsCons(raw[..i], raw[i + 1..], Split(raw[i + 1..]), rest);
    }
  }

  function EntryFor(line: string, index: nat, numbered: bool): Entry {
    if numbered then Numbered(index, line) else Plain(line)
  }

  /** The entries for a list of lines, numbered on from a given index when asked to. */
  function Entries(lines: seq<string>, index: nat, numbered: bool): (es: seq<Entry>)
    ensures |es| == |lines|
  {
    if lines == [] then [] else
      var n := |lines| - 1;
      Entries(lines[..n], index, numbered) + [EntryFor(lines[n], index + n + 1, numbered)]
  }

  lemma EntriesSnoc(lines: seq<string>, line: string, index: nat, numbered: bool)
    ensures Entries(lines + [line], index, numbered)
            == Entries(lines, index, numbered) + [EntryFor(line, index + |lines| + 1, numbered)]
  {
    assert (lines + [line])[..|lines|] == lines;
  }

  /** Entry k of a numbered read carries its line and the number after those before it; of an
      unnumbered one the line alone. */
  lemma {:induction false} EntryAt(lines: seq<string>, index: nat, numbered: bool, k: nat)
    requires k < |lines|
    ensures Entries(lines, index, numbered)[k] ==
            if numbered then Numbered(index + k + 1, lines[k]) else Plain(lines[k])
  {
    if k < |lines| - 1 { EntryAt(lines[..|lines| - 1], index, numbered, k); }
  }

  /** Two reads in a row number their lines as one read of all of them would. */
  lemma {:induction false} EntriesConcat(a: seq<string>, b: seq<string>, index: nat, numbered: bool)
    ensures Entries(a + b, index, numbered) == Entries(a, index, numbered) + Entries(b, index + |a|, numbered)
  {
    if b == [] {
      assert a + b == a;
    } else {
      var n := |b| - 1;
      EntriesConcat(a, b[..n], index, numbered);
      EntriesSnoc(a + b[..n], b[n], index, numbered);
      assert a + b == a + b[..n] + [b[n]];
    }
  }

  /** The reader stands at `last`, with the first lines out and exactly the others ahead. */
  ghost predicate Reading(raw: string, last: nat, es: seq<Entry>, index: nat, numbered: bool) {
    var all, n := Split(raw), |es|;
    && last <= |raw| && n <= |all|
    && Split(raw[last..]) == all[n..] && es == Entries(all[..n], index, numbered)
  }

  lemma ReadNone(raw: string, index: nat, numbered: bool)
    ensures Reading(raw, 0, [], index, numbered)
  {
    assert raw[0..] == raw;
  }

  lemma ReadOne(raw: string, last: nat, idx: nat, es: seq<Entry>, es': seq<Entry>, index: nat, numbered: bool)
    requires Reading(raw, last, es, index, numbered)
    requires last < idx < |raw| && idx == last + Terminator(raw[last..])
    requires es' == es + [EntryFor(raw[last..idx], index + |es'|, numbered)]
    ensures Reading(raw, idx + 1, es', index, numbered)
  {
    var all, n := Split(raw), |es|;
    SplitNext(raw, last, idx);
    assert all[n] == all[n..][0] && all[n..][1..] == all[n + 1..];
    assert all[..n + 1][..n] == all[..n];
  }

  lemma SplitNext(raw: string, last: nat, idx: nat)
    requires last < idx < |raw| && idx == last + Terminator(raw[last..])
    ensures Split(raw[last..]) == [raw[last..idx]] + Split(raw[idx + 1..])
  {
    var left := raw[last..];
    assert left[..idx - last] == raw[last..idx] && left[idx - last + 1..] == raw[idx + 1..];
  }

  lemma ReadAll(raw: string, last: nat, es: seq<Entry>, index: nat, numbered: bool)
    requires Reading(raw, last, es, index, numbered)
    requires Terminator(raw[last..]) == 0 || Terminator(raw[last..]) == |raw| - last
    ensures es == Entries(Split(raw), index, numbered)
  {
    assert Split(raw[last..]) == [];
    assert Split(raw)[..|es|] == Split(raw);
  }

  class SideChannel {
    var logReadCount: nat
    var logIndex: nat

    constructor ()
      ensures logReadCount == 0 && logIndex == 0
    {
      logReadCount, logIndex := 0, 0;
    }

    /** Numbers the line between two positions and adds it. */
    method TakeLine(raw: string, last: nat, idx: nat, lines: seq<Entry>, ghost index: nat, withLogIndex: bool)
      returns (more: seq<Entry>)
      requires Reading(raw, last, lines, index, withLogIndex) && logIndex == index + |lines|
      requires last < idx < |raw| && idx == last + Terminator(raw[last..])
      modifies this`logIndex
      ensures Reading(raw, idx + 1, more, index, withLogIndex) && logIndex == index + |more|
    {
      logIndex := logIndex + 1;
      more := lines + [EntryFor(raw[last..idx], logIndex, withLogIndex)];
      ReadOne(raw, last, idx, lines, more, index, withLogIndex);
    }

    /** The line loop, on a buffer that has a line to try. */
    method ReadLines(raw: string, withLogIndex: bool) returns (lines: seq<Entry>)
      requires raw != []
      modifies this`logIndex
      ensures lines == Entries(Split(raw), old(logIndex), withLogIndex)
      ensures logIndex == old(logIndex) + |lines|
    {
      ghost var index := logIndex;
      lines := [];
      var last: nat := 0;
      ReadNone(raw, index, withLogIndex);
      while raw[last] != NUL
        invariant last < |raw| && Reading(raw, last, lines, index, withLogIndex)
        invariant logIndex == index + |lines|
        decreases |raw| - last
      {
        var idx := last + Terminator(raw[last..]);
        if idx == |raw| { break; }
        lines := TakeLine(raw, last, idx, lines, index, withLogIndex);
        last := idx + 1;
        if last == |raw| { break; }
      }
      ReadAll(raw, last, lines, index, withLogIndex);
    }

    /** Reads the lines of a raw buffer. Only a read with a line to try counts as one. */
    method GetLog(raw: string, withLogIndex: bool) returns (lines: seq<Entry>)
      modifies this
      ensures lines == Entries(Split(raw), old(logIndex), withLogIndex)
      ensures logIndex == old(logIndex) + |Split(raw)|
      ensures logReadCount == old(logReadCount) + if raw == [] || raw[0] == NUL then 0 else 1
    {
      if raw == [] || raw[0] == NUL { return []; }
      logReadCount := logReadCount + 1;
      lines := ReadLines(raw, withLogIndex);
    }
  }
}
