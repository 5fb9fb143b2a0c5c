/** Python's `fmt % args` string formatting, for the conversions the
    crawler uses: `%s`, `%d` and the literal `%%`. A right operand that is
    not a tuple counts as a single argument. */
module PyFormat {
  import opened Wrappers
  import opened Text

  datatype Arg = Str(s: string) | Int(n: int)

  /** The `TypeError` / `ValueError` cases of `%` formatting. */
  datatype FormatError =
    | NotEnoughArguments        // TypeError: not enough arguments for format string
    | NotAllArgumentsConverted  // TypeError: not all arguments converted during string formatting
    | NumberRequired            // TypeError: %d format: a number is required
    | IncompleteFormat          // ValueError: incomplete format
    | UnsupportedFormat         // ValueError: unsupported format character

  /** The number of conversion slots (`%s`, `%d`) in a format string. */
  function Slots(fmt: string): nat {
    if |fmt| < 2 then 0
    else if fmt[0] == '%' && fmt[1] == '%' then Slots(fmt[2..])
    else if fmt[0] == '%' && (fmt[1] == 's' || fmt[1] == 'd') then 1 + Slots(fmt[2..])
    else Slots(fmt[1..])
  }

  function Render(a: Arg): string {
    match a
    case Str(s) => s
    case Int(n) => ShowInt(n)
  }

  function Prepend(p: string, r: Result<string, FormatError>): Result<string, FormatError> {
    if r.Ok? then Ok(p + r.value) else r
  }

  /** `fmt % tuple(args)`: a formatted string succeeds only when it
      consumes every argument, one per slot. */
  function Format(fmt: string, args: seq<Arg>): (r: Result<string, FormatError>)
    ensures r.Ok? ==> |args| == Slots(fmt)
    ensures |args| < Slots(fmt) ==> r.Err?
    decreases |fmt|
  {
    if fmt == [] then
      if args == [] then Ok("") else Err(NotAllArgumentsConverted)
    else if fmt[0] != '%' then
      Prepend([fmt[0]], Format(fmt[1..], args))
    else if |fmt| == 1 then
      Err(IncompleteFormat)
    else if fmt[1] == '%' then
      Prepend("%", Format(fmt[2..], args))
    else if fmt[1] == 's' || fmt[1] == 'd' then
      if args == [] then Err(NotEnoughArguments)
      else if fmt[1] == 'd' && args[0].Str? then Err(NumberRequired)
      else Prepend(Render(args[0]), Format(fmt[2..], args[1..]))
    else
      Err(UnsupportedFormat)
  }

  /** Text without `%` is copied through unchanged. */
  lemma {:induction false} FormatLiteral(p: string, rest: string, args: seq<Arg>)
    requires '%' !in p
    ensures Format(p + rest, args) == Prepend(p, Format(rest, args))
  {
    if p == [] {
      assert p + rest == rest;
      var r := Format(rest, args);
      if r.Ok? {
        assert p + r.value == r.value;
      }
    } else {
      var q := p + rest;
      assert q[0] == p[0] && q[1..] == p[1..] + rest;
      assert p[0] in p;
      assert Format(q, args) == Prepend([p[0]], Format(p[1..] + rest, args));
      FormatLiteral(p[1..], rest, args);
      PrependTwice([p[0]], p[1..], Format(rest, args));
      assert [p[0]] + p[1..] == p;
    }
  }

  lemma PrependTwice(a: string, b: string, r: Result<string, FormatError>)
    ensures Prepend(a, Prepend(b, r)) == Prepend(a + b, r)
  {
    if r.Ok? {
      assert a + (b + r.value) == (a + b) + r.value;
    }
  }

  /** A `%s` slot takes the next argument's text. */
  lemma StrSlot(text: string, tail: string, rest: seq<Arg>)
    ensures Format("%s" + tail, [Str(text)] + rest) == Prepend(text, Format(tail, rest))
  {
    var f := "%s" + tail;
    assert f[0] == '%' && f[1] == 's' && f[2..] == tail;
    assert ([Str(text)] + rest)[0] == Str(text) && ([Str(text)] + rest)[1..] == rest;
  }

  /** A `%d` slot followed by plain text, filled with an integer. */
  lemma IntSlot(n: int, tail: string)
    requires '%' !in tail
    ensures Format("%d" + tail, [Int(n)]) == Ok(ShowInt(n) + tail)
  {
    assert ("%d" + tail)[2..] == tail;
    FormatLiteral(tail, "", []);
    assert tail + "" == tail;
  }
}
