/** The reader driven as the program's own test drives it
    (tests/tests.cpp:27-43 with src/MAIN.cpp:34-60): a parameter file whose
    only line names a parameter the caller does not know. */
module Scenarios {
  import opened Messages
  import opened Text
  import opened Cursor
  import opened LineReads
  import opened Coercion
  import opened Reader

  /** The line `name value` holds no newline when the value holds none. */
  lemma NoNewline(name: string, value: string)
    requires Readable(name) && '\n' !in value
    ensures '\n' !in name + " " + value
  {
    var line := name + " " + value;
    forall i | 0 <= i < |line| ensures line[i] != '\n' {
      if i < |name| {
        assert line[i] == name[i] && IsNameChar(name[i]);
      } else if i > |name| {
        assert line[i] == value[i - |name| - 1];
      }
    }
  }

  /** The first token of `name value` is the name. */
  lemma FirstWord(name: string, value: string)
    requires Readable(name)
    ensures NextToken(name + " " + value, 0) == Scan(name, |name|)
  {
    var line := name + " " + value;
    assert !IsSpace(line[0]) by {
      assert line[0] == name[0] && IsNameChar(name[0]);
    }
    assert SkipSpace(line, 0) == 0;
    assert TokenEnd(line, 0) == |name| by {
      forall i | 0 <= i < |name| ensures !IsSpace(line[i]) {
        assert line[i] == name[i] && IsNameChar(name[i]);
      }
      assert line[|name|] == ' ';
    }
    assert line[..|name|] == name;
  }

  /** A file holding the single line `name value`, with a readable name and
      no newline in the value, is that one line; its header is the name,
      and the cursor stops right after it, in front of the space. */
  lemma DataLine(name: string, value: string, count: nat, filename: string)
    requires Readable(name) && '\n' !in value
    ensures TakeLine(name + " " + value) == Split(name + " " + value, [])
    ensures Header(name + " " + value, count, filename) == Step(name, Done, |name|)
  {
    NoNewline(name, value);
    TakeLineSplits(name + " " + value);
    FirstWord(name, value);
  }

  /** Whatever the file's name and the parameter's name: a file whose only
      line is `name value` is opened without error, that line is read as
      line 1 with the name on it without error, and `readerror` reports the
      name as an invalid parameter of line 1 of that file. */
  method UnknownParameter(filename: string, name: string, value: string) returns (opening: Outcome, reading: Outcome, r: Outcome)
    requires Readable(name) && '\n' !in value
    ensures opening == Done && reading == Done
    ensures r == Raise(InvalidParameterError, Context(name, 1, filename))
  {
    var reader := new ReadPars(filename);
    opening := reader.Open(map[filename := name + " " + value]);
    DataLine(name, value, 1, filename);
    reading := reader.ReadLine();
    r := reader.ReadError();
  }

  /** The driver's loop (src/MAIN.cpp:40-65) with every data line read by
      `readvalues`: lines are read until the end of the file, empty and
      comment lines are skipped, and the first error ends the loop, as the
      exception would. Each pass takes one line, so the loop ends; when no
      error occurs the whole file has been read, and the counter counts the
      lines read. */
  method ReadEvery(reader: ReadPars, kind: Kind, n: nat, check: Checker, checks: VectorChecker) returns (lines: nat, r: Outcome)
    requires reader.Valid() && reader.isOpen && n != 0
    modifies reader
    ensures reader.Valid() && reader.isOpen
    ensures reader.count == old(reader.count) + lines && lines <= old(|reader.file|)
    ensures r.Done? ==> reader.IsEof()
  {
    lines, r := 0, Done;
    while !reader.IsEof()
      invariant reader.Valid() && reader.isOpen
      invariant reader.count == old(reader.count) + lines && lines + |reader.file| <= old(|reader.file|)
      decreases |reader.file|
    {
      r := reader.ReadLine();
      lines := lines + 1;
      if r.Failed? {
        return;
      }
      if reader.IsEmpty() || reader.IsComment() {
        continue;
      }
      var values;
      values, r := reader.ReadValues(kind, n, check, checks);
      if r.Failed? {
        return;
      }
    }
  }

  /** The message `readerror` builds for the test's line. */
  lemma UnknownMessage()
    ensures What(Error(InvalidParameterError, Context("unknown", 1, "parameters.txt"), ""))
      == "Invalid parameter: " + "unknown" + " in line " + "1" + " of file " + "parameters.txt"
  {
    assert NatToString(1) == "1";
  }

  /** The test: "parameters.txt" holds "unknown 1", a name the caller does
      not know, and the error text is "Invalid parameter: unknown in line 1
      of file parameters.txt". */
  method AbuseCase() returns (message: string)
    ensures message == "Invalid parameter: " + "unknown" + " in line " + "1" + " of file " + "parameters.txt"
  {
    assert Readable("unknown");
    var _, _, r := UnknownParameter("parameters.txt", "unknown", "1");
    UnknownMessage();
    message := What(r.error);
  }
}
