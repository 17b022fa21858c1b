/** What one read on the current line produces: the parameter name at the
    start of a data line (src/readpars.cpp:160-169), one value (`read`,
    src/readpars.hpp:168-233), a single value that must end the line
    (`readvalue`, src/readpars.hpp:55-71) and a fixed number of values
    (`readvalues`, src/readpars.hpp:74-132). The `ReadPars` methods are
    proved against these functions. */
module LineReads {
  import opened Wrappers
  import opened Messages
  import opened Cursor
  import opened Numbers
  import opened Coercion

  /** An optional caller-supplied checker: "" means valid, anything else is
      the reason why not. */
  type Checker = Option<Value -> string>
  type VectorChecker = Option<seq<Value> -> string>

  /** `check ? check(value) : ""` */
  function CheckOf(check: Checker, v: Value): string
  {
    match check
    case None => ""
    case Some(f) => f(v)
  }

  function VectorCheckOf(checks: VectorChecker, vs: seq<Value>): string
  {
    match checks
    case None => ""
    case Some(f) => f(vs)
  }

  /** The token passes `readnext`, is wholly a number, and that number
      passes the guards of the destination kind. */
  predicate Coercible(kind: Kind, token: string)
  {
    Readable(token) && ParseNumber(token).Some? && Accepts(kind, ParseNumber(token).value)
  }

  /** `readnext` never refuses a number: every character of a decimal
      literal is a name character. So a token is coercible exactly when it
      parses and the kind accepts its number. */
  lemma NumberReadable(kind: Kind, token: string)
    ensures ParseNumber(token).Some? ==> Readable(token)
    ensures Coercible(kind, token) <==> ParseNumber(token).Some? && Accepts(kind, ParseNumber(token).value)
  {
    ParseNumberChars(token);
  }

  /** The value a coercible token is stored as. */
  function Decode(kind: Kind, token: string): Value
    requires Coercible(kind, token)
  {
    Cast(kind, ParseNumber(token).value)
  }

  /** The token is coercible and the per-value checker accepts its value. */
  predicate Fits(kind: Kind, check: Checker, token: string)
  {
    Coercible(kind, token) && CheckOf(check, Decode(kind, token)) == []
  }

  /** What `read` makes of one token: the value, or the error it raises. */
  datatype Attempt = Stored(value: Value) | Refused(status: Outcome)

  /** `read<T>` on a token already extracted: `readnext`'s character test,
      then the parse, then the guards of the kind, then the cast, then the
      checker. */
  function ReadToken(kind: Kind, ctx: Context, check: Checker, token: string): Attempt
  {
    if !Readable(token) then Refused(Raise(ReadValueError, ctx))
    else match ParseNumber(token)
      case None => Refused(Raise(ParseValueError, ctx))
      case Some(x) =>
        if IsIntegral(kind) && x.Floor as real != x then Refused(Raise(ParseValueError, ctx))
        else if IsUnsigned(kind) && x < 0.0 then Refused(Raise(ParseValueError, ctx))
        else if kind == Bool && x > 1.0 then Refused(Raise(ParseValueError, ctx))
        else
          var v := Cast(kind, x);
          var status := CheckError(ctx, CheckOf(check, v));
          if status.Done? then Stored(v) else Refused(status)
  }

  /** A token is stored exactly when it fits, and then as the token's number
      cast to the destination kind. A token that fails `readnext` is "Could
      not read value"; one that passes it but is not a number the kind
      accepts is "Invalid value type"; otherwise a checker's complaint is
      wrapped as a checker failure. A refusal is always an error. */
  lemma ReadTokenResult(kind: Kind, ctx: Context, check: Checker, token: string)
    ensures var a := ReadToken(kind, ctx, check, token);
      (a.Stored? <==> Fits(kind, check, token))
      && (a.Stored? ==> a.value == Decode(kind, token) && KindOf(a.value) == kind
                        && AsReal(a.value) == ParseNumber(token).value)
      && (a.Refused? ==> a.status.Failed?)
      && (!Readable(token) ==> a == Refused(Raise(ReadValueError, ctx)))
      && (Readable(token) && !Coercible(kind, token) ==> a == Refused(Raise(ParseValueError, ctx)))
      && (Coercible(kind, token) && !Fits(kind, check, token) ==>
            a == Refused(CheckError(ctx, CheckOf(check, Decode(kind, token)))))
  {
    if Coercible(kind, token) {
      CastExact(kind, ParseNumber(token).value);
    }
  }

  /** `read<T>` on the line: the next token, then `ReadToken`; the value is
      stored from the cast on, even when the checker then complains. */
  function ReadOne(kind: Kind, line: string, pos: nat, ctx: Context, check: Checker): (s: Step<Option<Value>>)
    requires pos <= |line|
    ensures pos <= s.next <= |line|
  {
    var sc := NextToken(line, pos);
    var stored := if Coercible(kind, sc.token) then Some(Decode(kind, sc.token)) else None;
    match ReadToken(kind, ctx, check, sc.token)
    case Stored(v) => Step(Some(v), Done, sc.end)
    case Refused(status) => Step(stored, status, sc.end)
  }

  /** The read consumes exactly the next token, stores a value exactly when
      the token is coercible, and succeeds exactly when `ReadToken` stores. */
  lemma ReadOneResult(kind: Kind, line: string, pos: nat, ctx: Context, check: Checker)
    requires pos <= |line|
    ensures var s := ReadOne(kind, line, pos, ctx, check); var token := NextToken(line, pos).token;
      var a := ReadToken(kind, ctx, check, token);
      s.next == NextToken(line, pos).end
      && (s.result.Some? <==> Coercible(kind, token))
      && (s.result.Some? ==> s.result.value == Decode(kind, token))
      && (s.status.Done? <==> a.Stored?)
      && (a.Stored? ==> s.result == Some(a.value))
      && (a.Refused? ==> s.status == a.status)
  {
    ReadTokenResult(kind, ctx, check, NextToken(line, pos).token);
  }

  /** `readvalue<T>`: one read, then "Too many values" unless the cursor is
      at the very end of the line. */
  function ReadValueSpec(kind: Kind, line: string, pos: nat, ctx: Context, check: Checker): Step<Option<Value>>
    requires pos <= |line|
  {
    var s := ReadOne(kind, line, pos, ctx, check);
    if s.status.Done? && !AtEnd(line, s.next) then s.(status := Raise(TooManyValuesError, ctx)) else s
  }

  /** The `while (!iseol())` loop of `readvalues<T>`, with the values
      collected so far in `acc` (the counter `i` is `|acc|`). */
  function Collect(kind: Kind, line: string, pos: nat, n: nat, ctx: Context, check: Checker, acc: seq<Value>): (s: Step<seq<Value>>)
    requires pos <= |line|
    ensures pos <= s.next <= |line|
    decreases |line| - pos
  {
    if AtEnd(line, pos) then
      Step(acc, if |acc| != n then Raise(TooFewValuesError, ctx) else Done, pos)
    else if |acc| == n then Step(acc, Raise(TooManyValuesError, ctx), pos)
    else
      var s := ReadOne(kind, line, pos, ctx, check);
      if s.status.Failed? then Step(acc, s.status, s.next)
      else Collect(kind, line, s.next, n, ctx, check, acc + [s.result.value])
  }

  /** A successful read in the loop consumes a token, stores a value of the
      destination kind, and the loop carries on from there with that value
      appended. */
  lemma CollectStep(kind: Kind, line: string, pos: nat, n: nat, ctx: Context, check: Checker, acc: seq<Value>)
    requires pos <= |line| && !AtEnd(line, pos) && |acc| < n
    requires ReadOne(kind, line, pos, ctx, check).status.Done?
    ensures var s := ReadOne(kind, line, pos, ctx, check);
      s.result.Some? && pos < s.next && KindOf(s.result.value) == kind
      && Collect(kind, line, pos, n, ctx, check, acc) == Collect(kind, line, s.next, n, ctx, check, acc + [s.result.value])
  {
    var token := NextToken(line, pos).token;
    ReadOneResult(kind, line, pos, ctx, check);
    ReadTokenResult(kind, ctx, check, token);
  }

  /** `readvalues<T>`: the loop from an emptied vector, then the vector
      checker on the complete vector. */
  function ReadValuesSpec(kind: Kind, line: string, pos: nat, n: nat, ctx: Context, check: Checker, checks: VectorChecker): (s: Step<seq<Value>>)
    requires pos <= |line|
    ensures pos <= s.next <= |line|
  {
    var s := Collect(kind, line, pos, n, ctx, check, []);
    if s.status.Failed? then s else s.(status := CheckError(ctx, VectorCheckOf(checks, s.result)))
  }

  /** The name part of `readline` on a data line: the first token becomes
      the name, which must be readable and must not end the line. */
  function Header(line: string, count: nat, filename: string): Step<string>
  {
    var sc := NextToken(line, 0);
    var ctx := Context(sc.token, count, filename);
    if !Readable(sc.token) then Step(sc.token, Raise(ReadNameError, ctx), sc.end)
    else if AtEnd(line, sc.end) then Step(sc.token, Raise(NoValueError, ctx), sc.end)
    else Step(sc.token, Done, sc.end)
  }

  /** A data line's header is accepted exactly when its first token is
      readable and more follows it (another token, or trailing whitespace);
      the name is then that token and the cursor is short of the end. A
      name that is not readable is "Could not read parameter name"; a
      readable name that ends the line is "No value". */
  lemma HeaderResult(line: string, count: nat, filename: string)
    ensures var s := Header(line, count, filename); var ts := Tokens(line, 0);
      (s.status.Done? <==> |ts| >= 1 && Readable(ts[0]) && (|ts| >= 2 || TrailingSpace(line, 0)))
      && (s.status.Done? ==> s.result == ts[0] && !AtEnd(line, s.next))
      && (s.status.Failed? && Readable(s.result) ==> s.status == Raise(NoValueError, Context(s.result, count, filename)))
      && (!Readable(s.result) ==> s.status == Raise(ReadNameError, Context(s.result, count, filename)))
  {
    var sc := NextToken(line, 0);
    if Readable(sc.token) {
      AfterToken(line, 0);
      EndOfLine(line, sc.end);
    }
  }

  /** The first token `read` looks at is the first of the remaining tokens;
      when none remains, the token read is empty and so not readable. */
  lemma FirstToken(line: string, pos: nat)
    requires pos <= |line|
    ensures var ts := Tokens(line, pos); var token := NextToken(line, pos).token;
      (ts == [] <==> token == []) && (ts != [] ==> token == ts[0])
  {
  }

  /** `readvalue` succeeds exactly when one token remains, it fits, and the
      line does not end in whitespace; the stored value is then that token's.
      A fitting token followed by anything, even whitespace only, is "Too
      many values", and the value is stored all the same. A checker failure
      is reported before the end of line is looked at. */
  lemma ReadValueResult(kind: Kind, line: string, pos: nat, ctx: Context, check: Checker)
    requires pos <= |line|
    ensures var s := ReadValueSpec(kind, line, pos, ctx, check); var ts := Tokens(line, pos);
      (s.status.Done? <==> |ts| == 1 && Fits(kind, check, ts[0]) && !TrailingSpace(line, pos))
      && (s.status.Done? ==> s.result == Some(Decode(kind, ts[0])))
      && (|ts| >= 1 && Fits(kind, check, ts[0]) && (|ts| >= 2 || TrailingSpace(line, pos)) ==>
            s.status == Raise(TooManyValuesError, ctx) && s.result == Some(Decode(kind, ts[0])))
      && (|ts| >= 1 && Coercible(kind, ts[0]) && CheckOf(check, Decode(kind, ts[0])) != [] ==>
            s.status == CheckError(ctx, CheckOf(check, Decode(kind, ts[0]))))
  {
    ReadOneResult(kind, line, pos, ctx, check);
    FirstToken(line, pos);
    var sc := NextToken(line, pos);
    ReadTokenResult(kind, ctx, check, sc.token);
    if sc.token != [] {
      AfterToken(line, pos);
      EndOfLine(line, sc.end);
    }
  }

  /** `read` applied to each of the tokens, in order. */
  function Attempts(kind: Kind, ctx: Context, check: Checker, ts: seq<string>): (r: seq<Attempt>)
    ensures |r| == |ts|
  {
    if ts == [] then [] else [ReadToken(kind, ctx, check, ts[0])] + Attempts(kind, ctx, check, ts[1..])
  }

  /** Each attempt is the read of its own token. */
  lemma {:induction false} AttemptsEach(kind: Kind, ctx: Context, check: Checker, ts: seq<string>, k: nat)
    requires k < |ts|
    ensures Attempts(kind, ctx, check, ts)[k] == ReadToken(kind, ctx, check, ts[k])
  {
    if k > 0 {
      AttemptsEach(kind, ctx, check, ts[1..], k - 1);
    }
  }

  /** Every attempt stored its value. */
  predicate AllStored(rs: seq<Attempt>)
  {
    rs == [] || (rs[0].Stored? && AllStored(rs[1..]))
  }

  /** The values of attempts that all stored, in order. */
  function Values(rs: seq<Attempt>): (vs: seq<Value>)
    requires AllStored(rs)
    ensures |vs| == |rs|
  {
    if rs == [] then [] else [rs[0].value] + Values(rs[1..])
  }

  /** `AllStored` and `Values`, read element by element. */
  lemma {:induction false} ValuesEach(rs: seq<Attempt>)
    ensures AllStored(rs) <==> forall k :: 0 <= k < |rs| ==> rs[k].Stored?
    ensures AllStored(rs) ==> forall k :: 0 <= k < |rs| ==> Values(rs)[k] == rs[k].value
  {
    if rs != [] {
      ValuesEach(rs[1..]);
      assert forall k :: 0 < k < |rs| ==> rs[k] == rs[1..][k - 1];
    }
  }

  /** Every refusal is an error, as it is for the reads of tokens. */
  predicate RefusalsFail(rs: seq<Attempt>)
  {
    forall k :: 0 <= k < |rs| && rs[k].Refused? ==> rs[k].status.Failed?
  }

  /** The loop of `readvalues<T>` restated over the reads of the tokens left
      on the line (`trailing`: the line ends in whitespace): stop at the end
      of the line, when the vector is full while anything is left, when only
      whitespace is left (the read then finds no token), or at the first
      read that raises an error. */
  function Gather(rs: seq<Attempt>, trailing: bool, n: nat, ctx: Context, acc: seq<Value>): (seq<Value>, Outcome)
  {
    if rs == [] && !trailing then (acc, if |acc| != n then Raise(TooFewValuesError, ctx) else Done)
    else if |acc| == n then (acc, Raise(TooManyValuesError, ctx))
    else if rs == [] then (acc, Raise(ReadValueError, ctx))
    else match rs[0]
      case Refused(status) => (acc, status)
      case Stored(v) => Gather(rs[1..], trailing, n, ctx, acc + [v])
  }

  /** The loop over the line and the loop over its tokens' reads agree on
      the vector and on the outcome, for any vector collected so far. */
  lemma {:induction false} CollectAgrees(kind: Kind, line: string, pos: nat, n: nat, ctx: Context, check: Checker, acc: seq<Value>)
    requires pos <= |line|
    ensures var s := Collect(kind, line, pos, n, ctx, check, acc);
      (s.result, s.status)
        == Gather(Attempts(kind, ctx, check, Tokens(line, pos)), TrailingSpace(line, pos), n, ctx, acc)
    decreases |line| - pos
  {
    var ts := Tokens(line, pos);
    EndOfLine(line, pos);
    if !AtEnd(line, pos) && |acc| != n {
      ReadOneResult(kind, line, pos, ctx, check);
      FirstToken(line, pos);
      var r := ReadOne(kind, line, pos, ctx, check);
      if ts == [] {
        assert !Readable(NextToken(line, pos).token);
      } else {
        var rs := Attempts(kind, ctx, check, ts);
        assert rs[0] == ReadToken(kind, ctx, check, ts[0]);
        if rs[0].Stored? {
          AfterToken(line, pos);
          assert rs[1..] == Attempts(kind, ctx, check, Tokens(line, r.next));
          CollectAgrees(kind, line, r.next, n, ctx, check, acc + [rs[0].value]);
        }
      }
    }
  }

  /** Whatever the outcome, the vector holds the values of the first reads,
      in order, never more than `n`: an element whose read raised an error
      is not appended. */
  lemma {:induction false} GatherPrefix(rs: seq<Attempt>, trailing: bool, n: nat, ctx: Context, acc: seq<Value>)
    requires |acc| <= n
    ensures var vs := Gather(rs, trailing, n, ctx, acc).0; var m := |vs| - |acc|;
      |acc| <= |vs| <= n && m <= |rs| && AllStored(rs[..m]) && vs == acc + Values(rs[..m])
  {
    if rs != [] && |acc| < n && rs[0].Stored? {
      var v := rs[0].value;
      GatherPrefix(rs[1..], trailing, n, ctx, acc + [v]);
      var vs := Gather(rs[1..], trailing, n, ctx, acc + [v]).0;
      var m := |vs| - |acc|;
      assert rs[..m][0] == rs[0];
      assert rs[..m][1..] == rs[1..][..m - 1];
      AppendAssoc(acc, [v], Values(rs[1..][..m - 1]));
    } else {
      assert rs[..0] == [] && acc + [] == acc;
    }
  }

  /** The loop ends normally exactly when the reads left fill the vector to
      `n`, all of them store, and the line does not end in whitespace; the
      vector is then their values in order. */
  lemma {:induction false} GatherDone(rs: seq<Attempt>, trailing: bool, n: nat, ctx: Context, acc: seq<Value>)
    requires |acc| <= n && RefusalsFail(rs)
    ensures var r := Gather(rs, trailing, n, ctx, acc);
      (r.1.Done? <==> |acc| + |rs| == n && AllStored(rs) && !trailing)
      && (r.1.Done? ==> r.0 == acc + Values(rs))
  {
    if rs != [] && |acc| < n && rs[0].Stored? {
      var v := rs[0].value;
      GatherDone(rs[1..], trailing, n, ctx, acc + [v]);
      if Gather(rs[1..], trailing, n, ctx, acc + [v]).1.Done? {
        AppendAssoc(acc, [v], Values(rs[1..]));
      }
    }
  }

  /** When anything is left after the reads that fill the vector (a further
      token, or only the whitespace the line ends in), and those reads
      store, the loop stops with "Too many values" before reading on. */
  lemma {:induction false} GatherTooMany(rs: seq<Attempt>, trailing: bool, n: nat, ctx: Context, acc: seq<Value>)
    requires |acc| <= n && (n - |acc| < |rs| || (n - |acc| == |rs| && trailing)) && AllStored(rs[..n - |acc|])
    ensures Gather(rs, trailing, n, ctx, acc).1 == Raise(TooManyValuesError, ctx)
  {
    if |acc| < n {
      var k := n - |acc|;
      assert rs[..k][0] == rs[0];
      assert rs[..k][1..] == rs[1..][..k - 1];
      GatherTooMany(rs[1..], trailing, n, ctx, acc + [rs[0].value]);
    }
  }

  /** When the reads left, all storing, cannot fill the vector, the loop
      reports "Too few values" at the end of the line; a line that ends in
      whitespace instead makes the next read find no token. */
  lemma {:induction false} GatherShort(rs: seq<Attempt>, trailing: bool, n: nat, ctx: Context, acc: seq<Value>)
    requires |acc| + |rs| < n && AllStored(rs)
    ensures Gather(rs, trailing, n, ctx, acc).1
      == if trailing then Raise(ReadValueError, ctx) else Raise(TooFewValuesError, ctx)
  {
    if rs != [] {
      GatherShort(rs[1..], trailing, n, ctx, acc + [rs[0].value]);
    }
  }

  /** The first read that raises an error, met while the vector still has
      room, ends the loop with that read's own error. */
  lemma {:induction false} GatherStop(rs: seq<Attempt>, trailing: bool, n: nat, ctx: Context, acc: seq<Value>, j: nat)
    requires j < |rs| && |acc| + j < n && AllStored(rs[..j]) && rs[j].Refused?
    ensures Gather(rs, trailing, n, ctx, acc).1 == rs[j].status
  {
    if j > 0 {
      assert rs[..j][0] == rs[0];
      assert rs[..j][1..] == rs[1..][..j - 1];
      GatherStop(rs[1..], trailing, n, ctx, acc + [rs[0].value], j - 1);
    }
  }

  /** Every refusal among the reads of tokens is an error. */
  lemma AttemptsRefusals(kind: Kind, ctx: Context, check: Checker, ts: seq<string>)
    ensures RefusalsFail(Attempts(kind, ctx, check, ts))
  {
    var rs := Attempts(kind, ctx, check, ts);
    forall k | 0 <= k < |ts| && rs[k].Refused? ensures rs[k].status.Failed? {
      AttemptsEach(kind, ctx, check, ts, k);
      ReadTokenResult(kind, ctx, check, ts[k]);
    }
  }

  /** The reads of tokens all store exactly when every token fits, and the
      values are then the tokens' decoded values. */
  lemma AttemptsFit(kind: Kind, ctx: Context, check: Checker, ts: seq<string>)
    ensures var rs := Attempts(kind, ctx, check, ts);
      (AllStored(rs) <==> forall k :: 0 <= k < |ts| ==> Fits(kind, check, ts[k]))
      && (AllStored(rs) ==>
            forall k :: 0 <= k < |ts| ==> Fits(kind, check, ts[k]) && Values(rs)[k] == Decode(kind, ts[k]))
  {
    var rs := Attempts(kind, ctx, check, ts);
    ValuesEach(rs);
    forall k | 0 <= k < |ts|
      ensures rs[k] == ReadToken(kind, ctx, check, ts[k])
      ensures rs[k].Stored? <==> Fits(kind, check, ts[k])
      ensures rs[k].Stored? ==> rs[k].value == Decode(kind, ts[k])
    {
      AttemptsEach(kind, ctx, check, ts, k);
      ReadTokenResult(kind, ctx, check, ts[k]);
    }
  }

  /** `readvalues` on the line, with `rs` the reads of the tokens left. The
      vector always holds the values of the first reads, in order, at most
      `n` of them. The call succeeds exactly when exactly `n` tokens are
      left, all of them are stored, the line does not end in whitespace, and
      the vector checker accepts the vector; with exactly `n` fitting tokens
      the vector checker decides, and its complaint is wrapped. */
  lemma ReadValuesResult(kind: Kind, line: string, pos: nat, n: nat, ctx: Context, check: Checker, checks: VectorChecker)
    requires pos <= |line|
    ensures var s := ReadValuesSpec(kind, line, pos, n, ctx, check, checks);
      var rs := Attempts(kind, ctx, check, Tokens(line, pos)); var trailing := TrailingSpace(line, pos);
      var m := |s.result|;
      m <= n && m <= |rs| && AllStored(rs[..m]) && s.result == Values(rs[..m])
      && (s.status.Done? <==> |rs| == n && AllStored(rs) && !trailing && VectorCheckOf(checks, Values(rs)) == [])
      && (|rs| == n && AllStored(rs) && !trailing ==>
            s.result == Values(rs) && s.status == CheckError(ctx, VectorCheckOf(checks, Values(rs))))
  {
    CollectAgrees(kind, line, pos, n, ctx, check, []);
    AttemptsRefusals(kind, ctx, check, Tokens(line, pos));
    GatherFromEmpty(Attempts(kind, ctx, check, Tokens(line, pos)), TrailingSpace(line, pos), n, ctx);
  }

  /** The loop over the reads, started on an empty vector: the vector is
      the values of the first reads, and the loop ends normally exactly when
      the reads fill it to `n` and all store, with no trailing whitespace. */
  lemma GatherFromEmpty(rs: seq<Attempt>, trailing: bool, n: nat, ctx: Context)
    requires RefusalsFail(rs)
    ensures var r := Gather(rs, trailing, n, ctx, []); var m := |r.0|;
      m <= n && m <= |rs| && AllStored(rs[..m]) && r.0 == Values(rs[..m])
      && (r.1.Done? <==> |rs| == n && AllStored(rs) && !trailing)
      && (r.1.Done? ==> r.0 == Values(rs))
  {
    GatherPrefix(rs, trailing, n, ctx, []);
    GatherDone(rs, trailing, n, ctx, []);
    var vs := Gather(rs, trailing, n, ctx, []).0;
    assert [] + Values(rs[..|vs|]) == Values(rs[..|vs|]);
    if AllStored(rs) {
      assert [] + Values(rs) == Values(rs);
    }
  }

  /** How `readvalues` fails short of the vector checker: "Too many values"
      when the first `n` tokens are stored and anything is left after them,
      a further token or only the whitespace the line ends in; at
      the end of a line too short "Too few values", or "Could not read value"
      when the line ends in whitespace; and otherwise the error of the first
      read that raises one. */
  lemma ReadValuesErrors(kind: Kind, line: string, pos: nat, n: nat, ctx: Context, check: Checker, checks: VectorChecker)
    requires pos <= |line|
    ensures var s := ReadValuesSpec(kind, line, pos, n, ctx, check, checks);
      var rs := Attempts(kind, ctx, check, Tokens(line, pos)); var trailing := TrailingSpace(line, pos);
      ((n < |rs| || (n == |rs| && trailing)) && AllStored(rs[..n]) ==> s.status == Raise(TooManyValuesError, ctx))
      && (|rs| < n && AllStored(rs) ==>
            s.status == if trailing then Raise(ReadValueError, ctx) else Raise(TooFewValuesError, ctx))
      && (forall j :: 0 <= j < |rs| && j < n && AllStored(rs[..j]) && rs[j].Refused? ==> s.status == rs[j].status)
  {
    var rs := Attempts(kind, ctx, check, Tokens(line, pos));
    var trailing := TrailingSpace(line, pos);
    CollectAgrees(kind, line, pos, n, ctx, check, []);
    AttemptsRefusals(kind, ctx, check, Tokens(line, pos));
    if (n < |rs| || (n == |rs| && trailing)) && AllStored(rs[..n]) {
      GatherTooMany(rs, trailing, n, ctx, []);
    }
    if |rs| < n && AllStored(rs) {
      GatherShort(rs, trailing, n, ctx, []);
    }
    forall j | 0 <= j < |rs| && j < n && AllStored(rs[..j]) && rs[j].Refused?
      ensures Gather(rs, trailing, n, ctx, []).1 == rs[j].status
    {
      GatherStop(rs, trailing, n, ctx, [], j);
    }
  }

  lemma AppendAssoc<T>(a: seq<T>, b: seq<T>, c: seq<T>)
    ensures (a + b) + c == a + (b + c)
  {
  }
}
