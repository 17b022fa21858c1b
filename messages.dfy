/** The reader's error messages (src/readpars.cpp:32-62). Every message is
    built from the error context: the current parameter name, the line
    counter and the file name. The operations of the model report an error
    as its kind and the context it was raised in; `What` renders it as the
    text the thrown `std::runtime_error` carries. */
module Messages {
  import opened Wrappers
  import opened Text

  /** The triple every message is formatted from. */
  datatype Context = Context(name: string, count: nat, filename: string)

  /** The error taxonomy: one kind per message format, plus checker failures. */
  datatype ErrorKind =
    | OpenFileError | EmptyFileError | ReadNameError | NoValueError | ReadValueError
    | ParseValueError | TooManyValuesError | TooFewValuesError | InvalidParameterError
    | CheckFailure

  /** A thrown error: its kind, the context at the throw, and for a checker
      failure the checker's own message (empty otherwise). */
  datatype Error = Error(kind: ErrorKind, ctx: Context, detail: string)

  /** How an operation of the reader ends: normally, or by throwing. */
  datatype Outcome = Done | Failed(error: Error)

  /** One read on the current line: what it produced (a name, a value, the
      values collected so far), how it ended, and where the read cursor
      stands afterwards. */
  datatype Step<+T> = Step(result: T, status: Outcome, next: nat)

  /** `throw std::runtime_error(errorX())` for one of the fixed formats. */
  function Raise(kind: ErrorKind, ctx: Context): Outcome
  {
    Failed(Error(kind, ctx, ""))
  }

  function ErrorOpenFile(ctx: Context): string
  {
    "Unable to open file " + ctx.filename
  }

  function ErrorEmptyFile(ctx: Context): string
  {
    "File " + ctx.filename + " is empty"
  }

  function ErrorReadName(ctx: Context): string
  {
    "Could not read parameter name in line " + NatToString(ctx.count) + " of file " + ctx.filename
  }

  function ErrorNoValue(ctx: Context): string
  {
    "No value for parameter " + ctx.name + " in line " + NatToString(ctx.count) + " of file " + ctx.filename
  }

  function ErrorReadValue(ctx: Context): string
  {
    "Could not read value for parameter " + ctx.name + " in line " + NatToString(ctx.count) + " of file " + ctx.filename
  }

  function ErrorParseValue(ctx: Context): string
  {
    "Invalid value type for parameter " + ctx.name + " in line " + NatToString(ctx.count) + " of file " + ctx.filename
  }

  function ErrorTooManyValues(ctx: Context): string
  {
    "Too many values for parameter " + ctx.name + " in line " + NatToString(ctx.count) + " of file " + ctx.filename
  }

  function ErrorTooFewValues(ctx: Context): string
  {
    "Too few values for parameter " + ctx.name + " in line " + NatToString(ctx.count) + " of file " + ctx.filename
  }

  function ErrorInvalidParameter(ctx: Context): string
  {
    "Invalid parameter: " + ctx.name + " in line " + NatToString(ctx.count) + " of file " + ctx.filename
  }

  /** `checkerror`: an empty checker result is no error; any other result is
      thrown as a checker failure carrying that result. */
  function CheckError(ctx: Context, error: string): (r: Outcome)
    ensures r.Done? <==> error == []
    ensures r.Failed? ==> r.error.kind == CheckFailure && r.error.ctx == ctx && r.error.detail == error
  {
    if error == [] then Done else Failed(Error(CheckFailure, ctx, error))
  }

  /** Which format a message was built from, decided by its fixed leading
      text alone (the formats already differ in their first character, except
      for the two pairs that share "Could not read ", "Invalid " and "Too ");
      it does not depend on the name, the counter or the file name. */
  function Classify(m: string): Option<ErrorKind>
  {
    if m == [] then None
    else match m[0]
      case 'U' => if "Unable to open file " <= m then Some(OpenFileError) else None
      case 'F' => if "File " <= m then Some(EmptyFileError) else None
      case 'N' => if "No value for parameter " <= m then Some(NoValueError) else None
      case 'P' => if "Parameter " <= m then Some(CheckFailure) else None
      case 'C' =>
        if "Could not read parameter name in line " <= m then Some(ReadNameError)
        else if "Could not read value for parameter " <= m then Some(ReadValueError)
        else None
      case 'I' =>
        if "Invalid value type for parameter " <= m then Some(ParseValueError)
        else if "Invalid parameter: " <= m then Some(InvalidParameterError)
        else None
      case 'T' =>
        if "Too many values for parameter " <= m then Some(TooManyValuesError)
        else if "Too few values for parameter " <= m then Some(TooFewValuesError)
        else None
      case _ => None
  }

  /** The message of each error kind; a checker failure wraps the checker's
      own message `error`. */
  function Message(kind: ErrorKind, ctx: Context, error: string): string
  {
    match kind
    case OpenFileError => ErrorOpenFile(ctx)
    case EmptyFileError => ErrorEmptyFile(ctx)
    case ReadNameError => ErrorReadName(ctx)
    case NoValueError => ErrorNoValue(ctx)
    case ReadValueError => ErrorReadValue(ctx)
    case ParseValueError => ErrorParseValue(ctx)
    case TooManyValuesError => ErrorTooManyValues(ctx)
    case TooFewValuesError => ErrorTooFewValues(ctx)
    case InvalidParameterError => ErrorInvalidParameter(ctx)
    case CheckFailure => "Parameter " + ctx.name + " " + error + " in line " + NatToString(ctx.count) + " of file " + ctx.filename
  }

  /** The text of a thrown error. */
  function What(e: Error): string
  {
    Message(e.kind, e.ctx, e.detail)
  }

  /** A non-empty checker result is thrown as "Parameter", the name, the
      checker's message, then the line and the file. */
  lemma CheckErrorMessage(ctx: Context, error: string)
    requires error != []
    ensures CheckError(ctx, error).Failed?
    ensures What(CheckError(ctx, error).error)
      == "Parameter " + ctx.name + " " + error + " in line " + NatToString(ctx.count) + " of file " + ctx.filename
  {
  }

  /** Every message is recognised as exactly the error it reports, whatever
      the name, counter and file name: no two formats can be confused. */
  lemma MessageKind(kind: ErrorKind, ctx: Context, error: string)
    ensures Classify(Message(kind, ctx, error)) == Some(kind)
    ensures Classify(What(Error(kind, ctx, error))) == Some(kind)
  {
    match kind
    case OpenFileError => RecogniseOpenFile(ctx);
    case EmptyFileError => RecogniseEmptyFile(ctx);
    case ReadNameError => RecogniseReadName(ctx);
    case NoValueError => RecogniseNoValue(ctx);
    case ReadValueError => RecogniseReadValue(ctx);
    case ParseValueError => RecogniseParseValue(ctx);
    case TooManyValuesError => RecogniseTooManyValues(ctx);
    case TooFewValuesError => RecogniseTooFewValues(ctx);
    case InvalidParameterError => RecogniseInvalidParameter(ctx);
    case CheckFailure => RecogniseCheckFailure(ctx, error);
  }

  lemma RecogniseOpenFile(ctx: Context)
    ensures Classify(ErrorOpenFile(ctx)) == Some(OpenFileError)
  {
    var m := ErrorOpenFile(ctx);
    assert m[0] == 'U' && m[..20] == "Unable to open file ";
  }

  lemma RecogniseEmptyFile(ctx: Context)
    ensures Classify(ErrorEmptyFile(ctx)) == Some(EmptyFileError)
  {
    var m := ErrorEmptyFile(ctx);
    assert m[0] == 'F' && m[..5] == "File ";
  }

  lemma RecogniseReadName(ctx: Context)
    ensures Classify(ErrorReadName(ctx)) == Some(ReadNameError)
  {
    var m := ErrorReadName(ctx);
    assert m[0] == 'C' && m[15] == 'p' && m[..38] == "Could not read parameter name in line ";
  }

  lemma RecogniseNoValue(ctx: Context)
    ensures Classify(ErrorNoValue(ctx)) == Some(NoValueError)
  {
    var m := ErrorNoValue(ctx);
    assert m[0] == 'N' && m[..23] == "No value for parameter ";
  }

  lemma RecogniseReadValue(ctx: Context)
    ensures Classify(ErrorReadValue(ctx)) == Some(ReadValueError)
  {
    var m := ErrorReadValue(ctx);
    assert m[0] == 'C' && m[15] == 'v' && m[..35] == "Could not read value for parameter ";
  }

  lemma RecogniseParseValue(ctx: Context)
    ensures Classify(ErrorParseValue(ctx)) == Some(ParseValueError)
  {
    var m := ErrorParseValue(ctx);
    assert m[0] == 'I' && m[8] == 'v' && m[..33] == "Invalid value type for parameter ";
  }

  lemma RecogniseTooManyValues(ctx: Context)
    ensures Classify(ErrorTooManyValues(ctx)) == Some(TooManyValuesError)
  {
    var m := ErrorTooManyValues(ctx);
    assert m[0] == 'T' && m[4] == 'm' && m[..30] == "Too many values for parameter ";
  }

  lemma RecogniseTooFewValues(ctx: Context)
    ensures Classify(ErrorTooFewValues(ctx)) == Some(TooFewValuesError)
  {
    var m := ErrorTooFewValues(ctx);
    assert m[0] == 'T' && m[4] == 'f' && m[..29] == "Too few values for parameter ";
  }

  lemma RecogniseInvalidParameter(ctx: Context)
    ensures Classify(ErrorInvalidParameter(ctx)) == Some(InvalidParameterError)
  {
    var m := ErrorInvalidParameter(ctx);
    assert m[0] == 'I' && m[8] == 'p' && m[..19] == "Invalid parameter: ";
  }

  lemma RecogniseCheckFailure(ctx: Context, error: string)
    ensures Classify(Message(CheckFailure, ctx, error)) == Some(CheckFailure)
  {
    var m := Message(CheckFailure, ctx, error);
    assert m[0] == 'P' && m[..10] == "Parameter ";
  }
}
