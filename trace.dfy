/** The lexical classification of one trace line in `process_trace_file`
    (sim.c): leading spaces and tabs are skipped; a line that is then empty,
    ends, or starts a `#` comment is skipped; text starting with `0x` or `0X`
    is read as hexadecimal, anything else as decimal. The numeric conversion
    itself (`sscanf`) is supplied by the caller as a function. */
module Trace {
  import opened Bits
  import opened Wrappers

  /** What a line of the trace holds: nothing, or the text handed to `sscanf`
      with `%llx` or with `%llu`. */
  datatype LineClass = Skip | Hex(text: string) | Decimal(text: string)

  predicate IsBlank(c: char) {
    c == ' ' || c == '\t'
  }

  /** The number of leading spaces and tabs of `line`. */
  function BlankPrefix(line: string): (n: nat)
    ensures n <= |line|
    ensures forall k :: 0 <= k < n ==> IsBlank(line[k])
    ensures n < |line| ==> !IsBlank(line[n])
  {
    if line != [] && IsBlank(line[0]) then 1 + BlankPrefix(line[1..]) else 0
  }

  /** The leading blanks end at the first character that is not blank. */
  lemma {:induction false} BlankPrefixUnique(line: string, n: nat)
    requires n <= |line|
    requires forall k :: 0 <= k < n ==> IsBlank(line[k])
    requires n < |line| ==> !IsBlank(line[n])
    ensures BlankPrefix(line) == n
  {
    if n > 0 {
      BlankPrefixUnique(line[1..], n - 1);
    }
  }

  /** The class of a line, from the text after its leading blanks. */
  function Classification(line: string): LineClass {
    var rest := line[BlankPrefix(line)..];
    if rest == [] || rest[0] == '\n' || rest[0] == '#' then Skip
    else if |rest| >= 2 && rest[0] == '0' && (rest[1] == 'x' || rest[1] == 'X') then Hex(rest)
    else Decimal(rest)
  }

  /** The loop of `process_trace_file` that skips blanks, and the tests after it. */
  method ClassifyLine(line: string) returns (c: LineClass)
    ensures c == Classification(line)
  {
    var p := 0;
    while p < |line| && (line[p] == ' ' || line[p] == '\t')
      invariant p <= |line|
      invariant forall k :: 0 <= k < p ==> IsBlank(line[k])
    {
      p := p + 1;
    }
    BlankPrefixUnique(line, p);
    if p == |line| || line[p] == '\n' || line[p] == '#' {
      c := Skip;
    } else if p + 2 <= |line| && line[p] == '0' && (line[p + 1] == 'x' || line[p + 1] == 'X') {
      c := Hex(line[p..]);
    } else {
      c := Decimal(line[p..]);
    }
  }

  /** Blanks put in front of a line add to its leading blanks. */
  lemma {:induction false} BlankPrefixOfIndented(indent: string, line: string)
    requires forall k :: 0 <= k < |indent| ==> IsBlank(indent[k])
    ensures BlankPrefix(indent + line) == |indent| + BlankPrefix(line)
  {
    if indent != [] {
      BlankPrefixOfIndented(indent[1..], line);
      assert (indent + line)[0] == indent[0];
      assert (indent + line)[1..] == indent[1..] + line;
    } else {
      assert indent + line == line;
    }
  }

  /** Indentation does not change how a line is read. */
  lemma IndentIgnored(indent: string, line: string)
    requires forall k :: 0 <= k < |indent| ==> IsBlank(indent[k])
    ensures Classification(indent + line) == Classification(line)
  {
    BlankPrefixOfIndented(indent, line);
    assert (indent + line)[BlankPrefix(indent + line)..] == line[BlankPrefix(line)..];
  }

  /** A line is skipped exactly when it holds only blanks or its first
      non-blank character ends the line or starts a comment; otherwise the
      line is its leading blanks followed by the text handed to `sscanf`,
      which is not empty and starts neither a comment nor a blank, and is
      read as hexadecimal exactly when it starts with `0x` or `0X`. */
  lemma ClassifiedText(line: string)
    ensures Classification(line).Skip? <==>
              (forall k :: 0 <= k < |line| ==> IsBlank(line[k]))
              || line[BlankPrefix(line)] == '\n' || line[BlankPrefix(line)] == '#'
    ensures !Classification(line).Skip? ==>
              var t := Classification(line).text;
              |t| > 0 && t[0] != '#' && t[0] != '\n' && !IsBlank(t[0]) && line == line[..BlankPrefix(line)] + t
    ensures !Classification(line).Skip? ==>
              var t := Classification(line).text;
              Classification(line).Hex? <==> |t| >= 2 && t[0] == '0' && (t[1] == 'x' || t[1] == 'X')
  {
    var n := BlankPrefix(line);
    assert line == line[..n] + line[n..];
  }

  /** The address a line contributes to the trace: none for a skipped line,
      otherwise the value the caller's conversion gives its text. */
  function LineAddress(line: string, parseHex: string -> uint64, parseDec: string -> uint64): (r: Option<uint64>) {
    match Classification(line)
    case Skip => None
    case Hex(t) => Some(parseHex(t))
    case Decimal(t) => Some(parseDec(t))
  }

  /** The addresses of a trace, in file order. */
  function TraceAddresses(lines: seq<string>, parseHex: string -> uint64, parseDec: string -> uint64): (r: seq<uint64>)
    ensures |r| <= |lines|
  {
    if lines == [] then []
    else
      var init := TraceAddresses(lines[..|lines| - 1], parseHex, parseDec);
      match LineAddress(lines[|lines| - 1], parseHex, parseDec)
      case None => init
      case Some(a) => init + [a]
  }
}
