/**
 * The mcml command of src/cmd/mcml.c: each non-empty input line is either a
 * command line (it starts with the command prefix) or an element for the
 * multi-column layout.  Elements accumulate in a growable vector and are laid
 * out by mc() when a "category" command or the end of a file flushes them.
 *
 * The file-level static state (the element vector, the static buffers of the
 * command parser, the option settings and stdout) is the class Mcml; the
 * meaning of a whole stream is the pure Run below, and the methods are proved
 * against it.
 */
module Mcml {
  import opened ColumnFit
  import opened ColumnText
  import Mc

  datatype Option<T> = None | Some(value: T)

  /** isspace() in the C locale: blank, tab, newline, vertical tab, form feed, carriage return. */
  predicate IsSpace(c: char)
  {
    c == ' ' || '\t' <= c <= '\r'
  }

  /** is_prefix(pfx, s): walk both strings while pfx lasts; the end of s never matches a character of pfx. */
  function IsPrefix(pfx: seq<char>, s: seq<char>): (r: bool)
    ensures r <==> |pfx| <= |s| && s[..|pfx|] == pfx
  {
    if pfx == [] then true
    else if s == [] || pfx[0] != s[0] then false
    else
      var r := IsPrefix(pfx[1..], s[1..]);
      assert r ==> s[..|pfx|] == [s[0]] + s[1..][..|pfx| - 1];
      assert |pfx| <= |s| && s[..|pfx|] == pfx ==> s[1..][..|pfx| - 1] == pfx[1..];
      r
  }

  // ---------------------------------------------------------------------------
  // The command parser's view of a line

  /** Where the command word that starts at i ends: the first blank at or after i, or the end of the line. */
  function CommandEnd(line: seq<char>, i: nat): (e: nat)
    requires i <= |line|
    ensures i <= e <= |line|
    ensures forall k :: i <= k < e ==> !IsSpace(line[k])
    ensures e == |line| || IsSpace(line[e])
    decreases |line| - i
  {
    if i == |line| || IsSpace(line[i]) then i else CommandEnd(line, i + 1)
  }

  /** The first non-blank at or after i, or the end of the line. */
  function SpacesEnd(line: seq<char>, i: nat): (e: nat)
    requires i <= |line|
    ensures i <= e <= |line|
    ensures forall k :: i <= k < e ==> IsSpace(line[k])
    ensures e == |line| || !IsSpace(line[e])
    decreases |line| - i
  {
    if i == |line| || !IsSpace(line[i]) then i else SpacesEnd(line, i + 1)
  }

  /** The command word: the run of non-blanks right after the prefix. */
  function CommandWord(line: seq<char>, start: nat): (w: seq<char>)
    requires start <= |line|
    ensures start + |w| <= |line| && line[start..start + |w|] == w
    ensures forall k :: 0 <= k < |w| ==> !IsSpace(w[k])
    ensures start + |w| == |line| || IsSpace(line[start + |w|])
  {
    line[start..CommandEnd(line, start)]
  }

  /** Where the argument starts: past the blanks after the command word (nothing to skip at the end of the line). */
  function ArgumentStart(line: seq<char>, start: nat): (a: nat)
    requires start <= |line|
    ensures CommandEnd(line, start) <= a <= |line|
    ensures forall k :: CommandEnd(line, start) <= k < a ==> IsSpace(line[k])
    ensures a == |line| || !IsSpace(line[a])
  {
    var e := CommandEnd(line, start);
    if e == |line| then e else SpacesEnd(line, e)
  }

  /** The argument: the rest of the line from its first non-blank after the command word. */
  function Argument(line: seq<char>, start: nat): (arg: seq<char>)
    requires start <= |line|
    ensures |arg| <= |line| - start && line[|line| - |arg|..] == arg
    ensures arg == [] || !IsSpace(arg[0])
  {
    line[ArgumentStart(line, start)..]
  }

  /** A position with the defining properties of CommandEnd is CommandEnd. */
  lemma CommandEndUnique(line: seq<char>, i: nat, e: nat)
    requires i <= e <= |line|
    requires forall k :: i <= k < e ==> !IsSpace(line[k])
    requires e == |line| || IsSpace(line[e])
    ensures CommandEnd(line, i) == e
  {
  }

  /**
   * The parse cuts the rest of the line at e and a: the command word
   * line[start..e] is a maximal run of non-blanks, line[e..a] are the blanks
   * after it (at least one unless the line ends at e), and the argument
   * line[a..] runs to the end of the line, trailing blanks included, and
   * starts with a non-blank unless it is empty.
   */
  lemma ParseSplits(line: seq<char>, start: nat)
    requires start <= |line|
    ensures var e, a := CommandEnd(line, start), ArgumentStart(line, start);
      && start <= e <= a <= |line|
      && CommandWord(line, start) == line[start..e] && Argument(line, start) == line[a..]
      && (forall k :: start <= k < e ==> !IsSpace(line[k]))
      && (e == |line| || IsSpace(line[e]))
      && (forall k :: e <= k < a ==> IsSpace(line[k]))
      && (a == |line| || !IsSpace(line[a]))
      && (e < |line| ==> e < a)
      && (e == |line| ==> Argument(line, start) == [])
  {
  }

  /** The buffer size the parser asks for: len + 1 bytes rounded up to a multiple of 64. */
  function ChunkSize(len: nat): (n: nat)
    ensures n % 64 == 0 && len + 1 <= n < len + 1 + 64
  {
    var q := (len + 1 + 63) / 64;
    QuotRem((len + 1 + 63) % 64, q, 64);
    q * 64
  }

  // ---------------------------------------------------------------------------
  // The stream, as values

  /**
   * The option settings mcml consults: the command prefix (none unless given),
   * the line width, the indent, the direction and whether each file is flushed
   * on its own.  width and indent are size_t.
   */
  datatype Settings = Settings(cmdpfx: Option<seq<char>>, width: nat, indent: nat, horizontal: bool, eachFile: bool)
  {
    predicate Valid()
    {
      width < SizeLimit && indent < SizeLimit
    }
  }

  /** What the stream loop does with one line. */
  datatype LineKind = Blank | Category(arg: seq<char>) | Element

  function Classify(pfx: Option<seq<char>>, line: seq<char>): LineKind
  {
    if |line| == 0 then Blank
    else if pfx.Some? && IsPrefix(pfx.value, line) && CommandWord(line, |pfx.value|) == "category" then
      Category(Argument(line, |pfx.value|))
    else Element
  }

  /** The command word is "category" exactly when those eight letters follow start and then the end or a blank. */
  lemma CategoryWord(line: seq<char>, start: nat)
    requires start <= |line|
    ensures var n := start + |"category"|;
      CommandWord(line, start) == "category" <==>
        n <= |line| && line[start..n] == "category" && (n == |line| || IsSpace(line[n]))
  {
    var n := start + |"category"|;
    var word: seq<char> := "category";
    assert forall k :: 0 <= k < |word| ==> !IsSpace(word[k]);
    if n <= |line| && line[start..n] == word && (n == |line| || IsSpace(line[n])) {
      assert forall k :: start <= k < n ==> line[k] == word[k - start];
      CommandEndUnique(line, start, n);
    }
  }

  /** A slice that is a concatenation is the two slices. */
  lemma SliceSplit(line: seq<char>, a: seq<char>, b: seq<char>)
    requires |a| + |b| <= |line|
    ensures line[..|a| + |b|] == a + b <==> line[..|a|] == a && line[|a|..|a| + |b|] == b
  {
    if line[..|a|] == a && line[|a|..|a| + |b|] == b {
      assert line[..|a| + |b|] == line[..|a|] + line[|a|..|a| + |b|];
    }
    if line[..|a| + |b|] == a + b {
      assert line[..|a|] == (a + b)[..|a|];
      assert line[|a|..|a| + |b|] == (a + b)[|a|..];
    }
  }

  /**
   * A line is a category command exactly when it is the prefix, the word
   * "category", and then the end of the line or a blank; its argument starts
   * at the first non-blank after that.
   */
  lemma CategoryLine(pfx: seq<char>, line: seq<char>)
    ensures var n := |pfx| + |"category"|;
      Classify(Some(pfx), line).Category? <==>
        n <= |line| && line[..n] == pfx + "category" && (n == |line| || IsSpace(line[n]))
    ensures var n := |pfx| + |"category"|;
      Classify(Some(pfx), line).Category? ==> Classify(Some(pfx), line).arg == line[SpacesEnd(line, n)..]
  {
    var n := |pfx| + |"category"|;
    if n <= |line| {
      SliceSplit(line, pfx, "category");
    }
    if |pfx| <= |line| {
      CategoryWord(line, |pfx|);
    }
  }

  /** What has been written, what is waiting to be laid out, and whether the process has died. */
  datatype Outcome = Outcome(text: seq<char>, pending: seq<seq<char>>, died: bool)

  /** mc_flush: lay the pending elements out, or die, or do nothing when none are pending. */
  function Flushed(s: Settings, o: Outcome): (r: Outcome)
    requires s.Valid()
    ensures o.died || o.pending == [] ==> r == o
    ensures !r.died ==> r.pending == []
  {
    if o.died || o.pending == [] then o
    else if TableOverflows(|o.pending|, s.width) then Outcome(o.text, o.pending, true)
    else Outcome(o.text + McText(o.pending, s.width, s.indent, s.horizontal), [], false)
  }

  /** One iteration of the stream loop. */
  function Step(s: Settings, o: Outcome, line: seq<char>): (r: Outcome)
    requires s.Valid()
    ensures |o.text| <= |r.text| && r.text[..|o.text|] == o.text
  {
    match Classify(s.cmdpfx, line)
    case Blank => o
    case Category(arg) =>
      var f := Flushed(s, o);
      if f.died then f else Outcome(f.text + (arg + ":\n"), f.pending, false)
    case Element => Outcome(o.text, o.pending + [line], false)
  }

  /** The stream loop over the lines, stopping when the process dies. */
  function Run(s: Settings, lines: seq<seq<char>>, o: Outcome): Outcome
    requires s.Valid()
    decreases |lines|
  {
    if lines == [] || o.died then o else Run(s, lines[1..], Step(s, o, lines[0]))
  }

  /** mcml_stream: the loop, then a flush when each file is laid out on its own. */
  function StreamResult(s: Settings, lines: seq<seq<char>>, o: Outcome): Outcome
    requires s.Valid()
  {
    var r := Run(s, lines, o);
    if s.eachFile then Flushed(s, r) else r
  }

  /** The non-empty lines, in order. */
  function NonBlank(lines: seq<seq<char>>): (r: seq<seq<char>>)
    ensures forall k :: 0 <= k < |r| ==> r[k] != []
  {
    if lines == [] then []
    else if lines[0] == [] then NonBlank(lines[1..])
    else [lines[0]] + NonBlank(lines[1..])
  }

  /**
   * Without category commands nothing is written: the non-empty lines are
   * appended to the pending elements, in order.
   */
  lemma {:induction false} RunWithoutCommands(s: Settings, lines: seq<seq<char>>, o: Outcome)
    requires s.Valid() && !o.died
    requires forall k :: 0 <= k < |lines| ==> !Classify(s.cmdpfx, lines[k]).Category?
    ensures Run(s, lines, o) == Outcome(o.text, o.pending + NonBlank(lines), false)
    decreases |lines|
  {
    if lines == [] {
      assert o.pending + [] == o.pending;
    } else {
      var next := Step(s, o, lines[0]);
      assert forall k :: 0 <= k < |lines[1..]| ==> lines[1..][k] == lines[k + 1];
      RunWithoutCommands(s, lines[1..], next);
      if lines[0] != [] {
        assert o.pending + [lines[0]] + NonBlank(lines[1..]) == o.pending + ([lines[0]] + NonBlank(lines[1..]));
      }
    }
  }

  /** Running over two stretches of lines one after the other is running over both. */
  lemma {:induction false} RunAppend(s: Settings, a: seq<seq<char>>, b: seq<seq<char>>, o: Outcome)
    requires s.Valid()
    ensures Run(s, a + b, o) == Run(s, b, Run(s, a, o))
    decreases |a|
  {
    if a == [] {
      assert a + b == b;
    } else if !o.died {
      assert (a + b)[1..] == a[1..] + b;
      RunAppend(s, a[1..], b, Step(s, o, a[0]));
    } else {
      if b != [] {
        assert a + b != [];
      }
    }
  }

  /**
   * A category line lays out exactly the elements that were pending before
   * it, in input order: those pending at the start, then the non-empty lines
   * of the stretch before it; the header follows the layout.
   */
  lemma SectionFlush(s: Settings, body: seq<seq<char>>, cat: seq<char>, o: Outcome)
    requires s.Valid() && !o.died
    requires forall k :: 0 <= k < |body| ==> !Classify(s.cmdpfx, body[k]).Category?
    requires Classify(s.cmdpfx, cat).Category?
    ensures var f := Flushed(s, Outcome(o.text, o.pending + NonBlank(body), false));
      Run(s, body + [cat], o) == if f.died then f else Outcome(f.text + (Classify(s.cmdpfx, cat).arg + ":\n"), [], false)
  {
    RunAppend(s, body, [cat], o);
    RunWithoutCommands(s, body, o);
  }

  /** Without a command prefix every non-empty line is an element. */
  lemma NoPrefixNoCommands(s: Settings, lines: seq<seq<char>>, o: Outcome)
    requires s.Valid() && !o.died && s.cmdpfx.None?
    ensures Run(s, lines, o) == Outcome(o.text, o.pending + NonBlank(lines), false)
  {
    RunWithoutCommands(s, lines, o);
  }

  /**
   * Every element waiting at the end was waiting at the start or is a
   * non-empty input line that is not a category command.
   */
  lemma {:induction false} PendingFromInput(s: Settings, lines: seq<seq<char>>, o: Outcome, x: seq<char>)
    requires s.Valid()
    requires x in Run(s, lines, o).pending
    ensures x in o.pending || exists k :: 0 <= k < |lines| && lines[k] == x && Classify(s.cmdpfx, x) == Element
    decreases |lines|
  {
    if lines != [] && !o.died {
      var next := Step(s, o, lines[0]);
      PendingFromInput(s, lines[1..], next, x);
      if x in next.pending && x !in o.pending {
        assert lines[0] == x && Classify(s.cmdpfx, x) == Element;
      } else if x !in next.pending {
        var k :| 0 <= k < |lines[1..]| && lines[1..][k] == x && Classify(s.cmdpfx, x) == Element;
        assert lines[k + 1] == x;
      }
    }
  }

  /** A category command leaves nothing pending and ends the text with its header line. */
  lemma CategoryHeader(s: Settings, o: Outcome, line: seq<char>)
    requires s.Valid() && !o.died && Classify(s.cmdpfx, line).Category?
    ensures var r, arg := Step(s, o, line), Classify(s.cmdpfx, line).arg;
      !r.died ==> r.pending == [] && |arg| + 2 <= |r.text| && r.text[|r.text| - |arg| - 2..] == arg + ":\n"
  {
  }

  /**
   * The text only grows: the output of a run extends what was written
   * before it.
   */
  lemma {:induction false} TextGrows(s: Settings, lines: seq<seq<char>>, o: Outcome)
    requires s.Valid()
    ensures |o.text| <= |Run(s, lines, o).text| && Run(s, lines, o).text[..|o.text|] == o.text
    decreases |lines|
  {
    if lines != [] && !o.died {
      var next := Step(s, o, lines[0]);
      TextGrows(s, lines[1..], next);
      var r := Run(s, lines[1..], next);
      assert next.text[..|o.text|] == o.text;
      assert r.text[..|o.text|] == r.text[..|next.text|][..|o.text|];
    }
  }

  // ---------------------------------------------------------------------------
  // The static state of mcml.c

  /** The scan for the command word: stop at the first blank or at the end of the line. */
  method ScanCommand(line: seq<char>, start: nat) returns (p: nat)
    requires start <= |line|
    ensures p == CommandEnd(line, start)
  {
    p := start;
    while p < |line| && !IsSpace(line[p])
      invariant start <= p <= |line|
      invariant CommandEnd(line, p) == CommandEnd(line, start)
      decreases |line| - p
    {
      p := p + 1;
    }
  }

  /**
   * The scan for the argument from the end e of the command word: unless the
   * line ends there, skip the blanks, mark the argument, and run to the end.
   */
  method ScanArgument(line: seq<char>, start: nat, e: nat) returns (a: nat, p: nat)
    requires start <= |line| && e == CommandEnd(line, start)
    ensures a == ArgumentStart(line, start) && p == |line|
  {
    p := e;
    a := p;
    if p < |line| {
      while p < |line| && IsSpace(line[p])
        invariant e <= p <= |line|
        invariant SpacesEnd(line, p) == SpacesEnd(line, e)
        decreases |line| - p
      {
        p := p + 1;
      }
      a := p;
      while p < |line|
        invariant a <= p <= |line|
        decreases |line| - p
      {
        p := p + 1;
      }
    }
  }

  /**
   * The static buffer for one string: realloc to ChunkSize(|s|) bytes, then
   * memcpy(buf, s, |s|) and buf[|s|] = '\0'.
   */
  method NewCString(s: seq<char>) returns (buf: array<char>)
    ensures fresh(buf) && buf.Length == ChunkSize(|s|)
    ensures buf[..|s|] == s && buf[|s|] == '\0'
  {
    buf := new char[ChunkSize(|s|)];
    for k := 0 to |s|
      invariant buf[..k] == s[..k]
    {
      buf[k] := s[k];
    }
    buf[|s|] := '\0';
  }

  class Mcml {
    const settings: Settings
    /** stdout */
    const out: Mc.OutputFile

    /** mc_elemv, mc_nelem, mc_sz: the pending elements and the vector's capacity. */
    var elemv: array<seq<char>>
    var nelem: nat
    var sz: nat

    /** The static buffers of parse_mcml_command: contents, length and allocated size. */
    var svCmd: array<char>
    var svCmdLen: nat
    var svCmdChunk: nat
    var svArg: array<char>
    var svArgLen: nat
    var svArgChunk: nat

    ghost predicate Valid()
      reads this
    {
      && settings.Valid()
      && elemv.Length == sz && nelem <= sz && sz % 1024 == 0
    }

    /** The elements waiting to be laid out. */
    ghost function Pending(): seq<seq<char>>
      reads this, elemv
      requires nelem <= elemv.Length
    {
      elemv[..nelem]
    }

    /** Program start: nothing allocated yet, and empty parse buffers. */
    constructor (settings: Settings, out: Mc.OutputFile)
      requires settings.Valid()
      ensures Valid() && this.settings == settings && this.out == out
      ensures sz == 0 && Pending() == []
    {
      this.settings := settings;
      this.out := out;
      elemv := new seq<char>[0];
      nelem, sz := 0, 0;
      svCmd, svArg := new char[0], new char[0];
      svCmdLen, svCmdChunk, svArgLen, svArgChunk := 0, 0, 0, 0;
    }

    /** mc_add_element: allocate 1024 slots on first use, grow by 1024 when full, append. */
    method AddElement(elem: seq<char>)
      requires Valid()
      modifies this, elemv
      ensures Valid() && Pending() == old(Pending()) + [elem]
      ensures sz == if old(nelem) < old(sz) then old(sz) else old(sz) + 1024
      ensures elemv == old(elemv) || fresh(elemv)
      ensures unchanged(`svCmd, `svCmdLen, `svCmdChunk, `svArg, `svArgLen, `svArgChunk)
    {
      if sz == 0 {
        sz := 1024;
        elemv := new seq<char>[sz];
        nelem := 0;
      }
      if nelem >= sz {
        sz := sz + 1024;
        var grown := new seq<char>[sz];
        forall k | 0 <= k < nelem {
          grown[k] := elemv[k];
        }
        elemv := grown;
      }
      elemv[nelem] := elem;
      nelem := nelem + 1;
    }

    /** mc_reset: drop the pending elements; the vector keeps its capacity. */
    method Reset()
      modifies this
      ensures nelem == 0 && Pending() == []
      ensures unchanged(`elemv, `sz, `svCmd, `svCmdLen, `svCmdChunk, `svArg, `svArgLen, `svArgChunk)
    {
      nelem := 0;
    }

    /** mc_flush: lay out the pending elements on stdout, then reset; nothing when none are pending. */
    method Flush() returns (died: bool)
      requires Valid()
      modifies this, out
      ensures Valid() && Outcome(out.text, Pending(), died) == Flushed(settings, Outcome(old(out.text), old(Pending()), false))
      ensures unchanged(`elemv)
    {
      died := false;
      if nelem == 0 {
        return;
      }
      died := Mc.Mc(out, elemv[..nelem], settings.width, settings.indent, settings.horizontal);
      if died {
        return;
      }
      Reset();
    }

    /**
     * parse_mcml_command: split the text after the command prefix into the
     * command word and its argument, each copied into its static buffer.
     */
    method ParseMcmlCommand(line: seq<char>) returns (cmd: seq<char>, arg: seq<char>)
      requires settings.cmdpfx.Some? && |settings.cmdpfx.value| <= |line|
      modifies this
      ensures cmd == CommandWord(line, |settings.cmdpfx.value|) && arg == Argument(line, |settings.cmdpfx.value|)
      ensures svCmdLen == |cmd| && svCmdChunk == ChunkSize(svCmdLen) == svCmd.Length
      ensures svCmd[..svCmdLen] == cmd && svCmd[svCmdLen] == '\0'
      ensures svArgLen == |arg| && svArgChunk == ChunkSize(svArgLen) == svArg.Length
      ensures svArg[..svArgLen] == arg && svArg[svArgLen] == '\0'
      ensures fresh(svCmd) && fresh(svArg)
      ensures unchanged(`elemv, `nelem, `sz)
    {
      var start := |settings.cmdpfx.value|;
      var e := ScanCommand(line, start);
      svCmdLen := e - start;
      svCmdChunk := ChunkSize(svCmdLen);
      svCmd := NewCString(line[start..e]);
      var a, p := ScanArgument(line, start, e);
      svArgLen := p - a;
      svArgChunk := ChunkSize(svArgLen);
      svArg := NewCString(line[a..p]);
      cmd := svCmd[..svCmdLen];
      arg := svArg[..svArgLen];
    }

    /** One pass of the loop body of mcml_stream over a line. */
    method HandleLine(line: seq<char>) returns (died: bool)
      requires Valid()
      modifies this, elemv, out
      ensures Valid() && (elemv == old(elemv) || fresh(elemv))
      ensures Outcome(out.text, Pending(), died) == Step(settings, Outcome(old(out.text), old(Pending()), false), line)
    {
      died := false;
      if |line| == 0 {
        return;
      }
      if settings.cmdpfx.Some? && IsPrefix(settings.cmdpfx.value, line) {
        var cmd, arg := ParseMcmlCommand(line);
        if cmd == "category" {
          died := Flush();
          if died {
            return;
          }
          out.PutString(arg + ":\n");
          return;
        }
      }
      AddElement(line);
    }

    /**
     * mcml_stream: handle the lines of one input file in order, then flush
     * when each file is laid out on its own.  died stands for the exit that
     * ends the process when the layout table cannot grow.
     */
    method Stream(lines: seq<seq<char>>) returns (died: bool)
      requires Valid()
      modifies this, elemv, out
      ensures Valid()
      ensures Outcome(out.text, Pending(), died) == StreamResult(settings, lines, Outcome(old(out.text), old(Pending()), false))
    {
      ghost var start := Outcome(out.text, Pending(), false);
      var i := 0;
      while i < |lines|
        invariant i <= |lines|
        invariant Valid() && (elemv == old(elemv) || fresh(elemv))
        invariant Run(settings, lines, start) == Run(settings, lines[i..], Outcome(out.text, Pending(), false))
        decreases |lines| - i
      {
        ghost var cur := Outcome(out.text, Pending(), false);
        assert lines[i..][1..] == lines[i + 1..];
        died := HandleLine(lines[i]);
        if died {
          return;
        }
        i := i + 1;
      }
      died := false;
      if settings.eachFile {
        died := Flush();
      }
    }
  }
}
