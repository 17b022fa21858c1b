/** The line cursor: a line of text and a read position in it, read token by
    token as `line >> input` does on the `std::istringstream` of the current
    line (src/readpars.cpp:101-130, src/readpars.hpp:46). */
module Cursor {
  import opened Text

  /** A character `readnext` lets through: alphanumeric, a dot or a minus. */
  predicate IsNameChar(c: char)
  {
    IsAlnum(c) || c == '.' || c == '-'
  }

  /** What `readnext` accepts: a token was extracted (the stream did not
      fail) and every one of its characters is a name character. */
  predicate Readable(token: string)
  {
    token != [] && forall i :: 0 <= i < |token| ==> IsNameChar(token[i])
  }

  /** The first position at or after `pos` that is not whitespace. */
  function SkipSpace(line: string, pos: nat): (s: nat)
    requires pos <= |line|
    ensures pos <= s <= |line|
    ensures forall i :: pos <= i < s ==> IsSpace(line[i])
    ensures s < |line| ==> !IsSpace(line[s])
    decreases |line| - pos
  {
    if pos == |line| || !IsSpace(line[pos]) then pos else SkipSpace(line, pos + 1)
  }

  /** The first position at or after `start` that is whitespace. */
  function TokenEnd(line: string, start: nat): (e: nat)
    requires start <= |line|
    ensures start <= e <= |line|
    ensures forall i :: start <= i < e ==> !IsSpace(line[i])
    ensures e < |line| ==> IsSpace(line[e])
    decreases |line| - start
  {
    if start == |line| || IsSpace(line[start]) then start else TokenEnd(line, start + 1)
  }

  /** A token and the read position just after it. */
  datatype Scan = Scan(token: string, end: nat)

  /** `line >> input`: skip whitespace, then take the maximal run of
      non-whitespace. When only whitespace is left, it is consumed, nothing
      is extracted and the stream fails; the empty token stands for that. */
  function NextToken(line: string, pos: nat): (r: Scan)
    requires pos <= |line|
    ensures pos <= r.end <= |line|
    ensures r.token == [] <==> forall i :: pos <= i < |line| ==> IsSpace(line[i])
    ensures r.token == [] ==> r.end == |line|
    ensures r.token != [] ==> pos < r.end && pos + |r.token| <= r.end && r.token == line[r.end - |r.token|..r.end]
    ensures forall i :: 0 <= i < |r.token| ==> !IsSpace(r.token[i])
    ensures forall i :: pos <= i < r.end - |r.token| ==> IsSpace(line[i])
    ensures r.end < |line| ==> IsSpace(line[r.end])
  {
    var s := SkipSpace(line, pos);
    var e := TokenEnd(line, s);
    Scan(line[s..e], e)
  }

  /** All whitespace-delimited tokens from `pos` to the end of the line. */
  function Tokens(line: string, pos: nat): (ts: seq<string>)
    requires pos <= |line|
    ensures forall k :: 0 <= k < |ts| ==> ts[k] != []
    decreases |line| - pos
  {
    var sc := NextToken(line, pos);
    if sc.token == [] then [] else [sc.token] + Tokens(line, sc.end)
  }

  /** The rest of the line from `pos` is non-empty and ends in whitespace. */
  predicate TrailingSpace(line: string, pos: nat)
    requires pos <= |line|
  {
    pos < |line| && IsSpace(line[|line| - 1])
  }

  /** `iseol` is `peek() == eof`: the cursor is at the very end of the line. */
  predicate AtEnd(line: string, pos: nat)
  {
    pos == |line|
  }

  /** At the end of the line no token is left; short of it, no token is left
      exactly when the rest of the line is whitespace, and the line then ends
      in whitespace. So
      `iseol` is false on trailing whitespace although nothing more can be
      read. */
  lemma EndOfLine(line: string, pos: nat)
    requires pos <= |line|
    ensures AtEnd(line, pos) ==> Tokens(line, pos) == []
    ensures !AtEnd(line, pos) && Tokens(line, pos) == [] ==> TrailingSpace(line, pos)
    ensures !AtEnd(line, pos) ==> (Tokens(line, pos) == [] <==> forall i :: pos <= i < |line| ==> IsSpace(line[i]))
  {
    if !AtEnd(line, pos) && NextToken(line, pos).token == [] {
      assert IsSpace(line[|line| - 1]);
    }
  }

  /** After one token, the remaining tokens are the rest of the list, and the
      line still ends in whitespace exactly when it did before. */
  lemma AfterToken(line: string, pos: nat)
    requires pos <= |line|
    requires NextToken(line, pos).token != []
    ensures var e := NextToken(line, pos).end;
      Tokens(line, pos) == [NextToken(line, pos).token] + Tokens(line, e)
      && (TrailingSpace(line, pos) <==> TrailingSpace(line, e))
  {
    var sc := NextToken(line, pos);
    if sc.end == |line| {
      assert line[|line| - 1] == sc.token[|sc.token| - 1];
    }
  }
}
