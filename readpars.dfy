/** The `ReadPars` reader (src/readpars.hpp:28-235, src/readpars.cpp). It
    holds the file being read, the line counter, the flags of the current
    line, the current line with its read position and the parameter name.
    Every method that reads the line is proved against a function of
    module LineReads. */
module Reader {
  import opened Wrappers
  import opened Text
  import opened Messages
  import opened Cursor
  import opened Numbers
  import opened Coercion
  import opened LineReads

  class ReadPars {
    /** The name of the file to read. */
    const filename: string
    /** Whether the file stream is open. */
    var isOpen: bool
    /** What is left of the file's content, from the read position on. */
    var file: string
    /** The number of lines read so far. */
    var count: nat
    /** Flags of the current line. */
    var empty: bool
    var comment: bool
    /** The current line and the read position of its stream. */
    var line: string
    var pos: nat
    /** The parameter name read at the start of the current line. */
    var name: string

    /** The read position lies within the line, and a closed reader has no
        content left to read. */
    ghost predicate Valid()
      reads this
    {
      pos <= |line| && (!isOpen ==> file == [])
    }

    constructor(filename: string)
      ensures this.filename == filename
      ensures !isOpen && file == [] && count == 0
      ensures !empty && !comment && line == [] && pos == 0 && name == []
      ensures Valid()
    {
      this.filename := filename;
      isOpen := false;
      file := [];
      count := 0;
      empty := false;
      comment := false;
      line := [];
      pos := 0;
      name := [];
    }

    /** The name, counter and file name every error message is built from. */
    function Ctx(): Context
      reads this
    {
      Context(name, count, filename)
    }

    function IsOpen(): bool
      reads this
    {
      isOpen
    }

    /** `peek() == eof`: nothing is left to read, which is also what a
        closed stream reports. */
    function IsEof(): bool
      reads this
    {
      !isOpen || file == []
    }

    /** `peek() == eof` on the line stream: the cursor is at the very end. */
    function IsEol(): bool
      reads this
    {
      AtEnd(line, pos)
    }

    function IsEmpty(): bool
      reads this
    {
      empty
    }

    function IsComment(): bool
      reads this
    {
      comment
    }

    function GetCount(): nat
      reads this
    {
      count
    }

    function GetFilename(): string
      reads this
    {
      filename
    }

    function GetLine(): string
      reads this
    {
      line
    }

    function GetName(): string
      reads this
    {
      name
    }

    /** `open`: the file system is given as a map from file names to
        contents; a name it does not hold cannot be opened. An empty file is
        an error too, though the stream is then left open. Only a successful
        open asserts that no line has been read yet. */
    method Open(disk: map<string, string>) returns (r: Outcome)
      requires Valid() && !isOpen
      requires filename in disk && disk[filename] != [] ==> count == 0
      modifies this
      ensures Valid()
      ensures isOpen <==> filename in disk
      ensures isOpen ==> file == disk[filename]
      ensures filename !in disk ==> r == Raise(OpenFileError, Ctx())
      ensures filename in disk && disk[filename] == [] ==> r == Raise(EmptyFileError, Ctx())
      ensures r.Done? <==> filename in disk && disk[filename] != []
      ensures r.Done? ==> IsOpen() && !IsEof() && count == 0
      ensures count == old(count) && empty == old(empty) && comment == old(comment)
      ensures line == old(line) && pos == old(pos) && name == old(name)
    {
      if filename !in disk {
        return Raise(OpenFileError, Ctx());
      }
      isOpen := true;
      file := disk[filename];
      if IsEof() {
        return Raise(EmptyFileError, Ctx());
      }
      r := Done;
    }

    /** `reset`: clears the flags, the line and the name. */
    method Reset()
      modifies this
      ensures !empty && !comment && line == [] && pos == 0 && name == []
      ensures isOpen == old(isOpen) && file == old(file) && count == old(count)
    {
      empty := false;
      comment := false;
      line := [];
      pos := 0;
      name := [];
    }

    /** `readnext`: extracts the next token, then accepts it only when one
        was extracted and each of its characters is a letter, a digit, a
        dot or a minus. */
    method ReadNext() returns (ok: bool, input: string)
      requires pos <= |line|
      modifies this`pos
      ensures input == NextToken(line, old(pos)).token && pos == NextToken(line, old(pos)).end
      ensures ok <==> Readable(input)
    {
      var sc := NextToken(line, pos);
      input := sc.token;
      pos := sc.end;
      var error := input == [];
      if !error {
        var i := 0;
        while i < |input|
          invariant 0 <= i <= |input|
          invariant !error
          invariant forall j :: 0 <= j < i ==> IsNameChar(input[j])
        {
          if !IsNameChar(input[i]) {
            error := true;
          }
          if error {
            break;
          }
          i := i + 1;
        }
      }
      ok := !error;
    }

    /** `readline`: takes the next line of the file, counts it, flags it as
        empty or as a comment, and on any other line reads the parameter
        name, which must be followed by something. */
    method ReadLine() returns (r: Outcome)
      requires Valid() && isOpen && !IsEof()
      modifies this
      ensures Valid() && isOpen
      ensures line == TakeLine(old(file)).line && file == TakeLine(old(file)).rest
      ensures |file| < |old(file)|
      ensures count == old(count) + 1
      ensures empty == (line == []) && comment == (line != [] && line[0] == '#')
      ensures empty || comment ==> r == Done && name == [] && pos == 0
      ensures !empty && !comment ==> Step(name, r, pos) == Header(line, count, filename)
    {
      Reset();
      var temp := TakeLine(file);
      file := temp.rest;
      empty := temp.line == [];
      comment := temp.line != [] && temp.line[0] == '#';
      line := temp.line;
      count := count + 1;
      if empty || comment {
        return Done;
      }
      var ok, input := ReadNext();
      name := input;
      if !ok {
        return Raise(ReadNameError, Ctx());
      }
      if IsEol() {
        return Raise(NoValueError, Ctx());
      }
      r := Done;
    }

    /** `close`: closes the stream; the line, name and counter stay. */
    method Close()
      requires Valid()
      modifies this
      ensures !isOpen && file == [] && Valid()
      ensures count == old(count) && empty == old(empty) && comment == old(comment)
      ensures line == old(line) && pos == old(pos) && name == old(name)
    {
      isOpen := false;
      file := [];
    }

    /** `readerror`: the caller does not know the parameter on the current
        line, which is always an error. */
    method ReadError() returns (r: Outcome)
      ensures r == Raise(InvalidParameterError, Ctx())
      ensures Classify(What(r.error)) == Some(InvalidParameterError)
    {
      r := Raise(InvalidParameterError, Ctx());
      MessageKind(InvalidParameterError, Ctx(), "");
    }

    /** `read<T>`: the destination is given back as `stored`, which holds a
        value once the cast has happened, whatever the checker says. */
    method Read(kind: Kind, check: Checker) returns (stored: Option<Value>, r: Outcome)
      requires Valid()
      modifies this`pos
      ensures Valid()
      ensures Step(stored, r, pos) == ReadOne(kind, line, old(pos), Ctx(), check)
    {
      ghost var ln, start, ctx := line, pos, Ctx();
      var ok, temp := ReadNext();
      assert ln == line && ctx == Ctx();
      ReadOneResult(kind, ln, start, ctx, check);
      ReadTokenResult(kind, ctx, check, temp);
      if !ok {
        return None, Raise(ReadValueError, Ctx());
      }
      var parsed := ParseNumber(temp);
      if parsed.None? {
        return None, Raise(ParseValueError, Ctx());
      }
      var x := parsed.value;
      if IsIntegral(kind) && x.Floor as real != x {
        return None, Raise(ParseValueError, Ctx());
      }
      if IsUnsigned(kind) && x < 0.0 {
        return None, Raise(ParseValueError, Ctx());
      }
      if kind == Bool && x > 1.0 {
        return None, Raise(ParseValueError, Ctx());
      }
      var v := Cast(kind, x);
      stored := Some(v);
      r := CheckError(Ctx(), CheckOf(check, v));
    }

    /** `readvalue<T>`: the destination `current` is overwritten once a value
        has been cast and is otherwise left as it was; it keeps its kind. */
    method ReadValue(kind: Kind, current: Value, check: Checker) returns (value: Value, r: Outcome)
      requires Valid() && KindOf(current) == kind
      modifies this`pos
      ensures Valid()
      ensures var s := ReadValueSpec(kind, line, old(pos), Ctx(), check);
        r == s.status && pos == s.next
        && value == (if s.result.Some? then s.result.value else current)
      ensures KindOf(value) == kind
    {
      ghost var start := pos;
      var stored, st := Read(kind, check);
      value := if stored.Some? then stored.value else current;
      ReadOneResult(kind, line, start, Ctx(), check);
      if stored.Some? {
        CastExact(kind, ParseNumber(NextToken(line, start).token).value);
      }
      if st.Failed? {
        return value, st;
      }
      if !IsEol() {
        return value, Raise(TooManyValuesError, Ctx());
      }
      r := Done;
    }

    /** `readvalues<T>`: reads values until the end of the line into an
        emptied vector, refusing more than `n`, then demands exactly `n` and
        runs the vector checker. On an error the values read so far are
        given back. */
    method ReadValues(kind: Kind, n: nat, check: Checker, checks: VectorChecker) returns (values: seq<Value>, r: Outcome)
      requires Valid() && n != 0
      modifies this`pos
      ensures Valid()
      ensures var s := ReadValuesSpec(kind, line, old(pos), n, Ctx(), check, checks);
        values == s.result && r == s.status && pos == s.next
      ensures forall k :: 0 <= k < |values| ==> KindOf(values[k]) == kind
    {
      values, r := CollectValues(kind, n, check);
      if r.Done? {
        r := CheckError(Ctx(), VectorCheckOf(checks, values));
      }
    }

    /** The `while (!iseol())` loop of `readvalues<T>` and its count check. */
    method CollectValues(kind: Kind, n: nat, check: Checker) returns (values: seq<Value>, r: Outcome)
      requires Valid()
      modifies this`pos
      ensures Valid()
      ensures Step(values, r, pos) == Collect(kind, line, old(pos), n, Ctx(), check, [])
      ensures forall k :: 0 <= k < |values| ==> KindOf(values[k]) == kind
    {
      values := [];
      var i: nat := 0;
      ghost var ctx, ln, start := Ctx(), line, pos;
      while !IsEol()
        invariant start <= pos <= |ln| && Ctx() == ctx && line == ln && Valid()
        invariant i == |values| && i <= n
        invariant Collect(kind, ln, pos, n, ctx, check, values) == Collect(kind, ln, start, n, ctx, check, [])
        invariant forall k :: 0 <= k < |values| ==> KindOf(values[k]) == kind
        decreases |ln| - pos
      {
        if i == n {
          return values, Raise(TooManyValuesError, Ctx());
        }
        ghost var here := pos;
        var stored, st := Read(kind, check);
        if st.Failed? {
          return values, st;
        }
        CollectStep(kind, ln, here, n, ctx, check, values);
        values := values + [stored.value];
        i := i + 1;
      }
      if i != n {
        return values, Raise(TooFewValuesError, Ctx());
      }
      r := Done;
    }
  }
}
