/** Request-argument validation of the REST layer (`check_inputs`).

    The keyword arguments of a request are an ordered sequence of
    (key, value) pairs.  They are checked one after the other; a check may
    abort the request with an HTTP status, end the walk early by returning
    a value, or let the argument through.  Python's dynamic typing shows in
    the `Raised` outcome: a check that applies `len`, `>` or `isalnum` to a
    value of the wrong type raises an exception the validator does not
    catch. */
module Checks {
  import opened Wrappers

  /** Hop ceiling of the neighbour search. */
  const MAX_DEPTH := 7
  /** Length of the label prefix the tag store is partitioned by. */
  const LABEL_PREFIX_LENGTH := 3

  /** A keyword-argument value as the web layer passes it. */
  datatype ArgValue = Str(s: string) | Int(n: int) | NoneValue

  /** What `check_inputs` does with a whole argument list. */
  datatype Outcome =
    | Accepted                                      // every argument passed; returns None
    | Abort(code: int)                              // flask `abort(code, ...)`
    | ReturnLimit(limit: int)                       // a parsed `limit`, returned at once
    | ReturnFlags(canBeLabel: bool, canBeTxAddress: bool) // the `expression` verdict
    | Raised                                        // an uncaught TypeError / AttributeError

  /** The effect of one argument: go on with the next one, or stop with an outcome. */
  datatype Step = Continue | Stop(outcome: Outcome)

  type Arg = (string, ArgValue)

  const AlnumKeys: set<string> := {"address", "tx", "direction", "neighbor"}

  // ---------------------------------------------------------------------
  // Character classes (ASCII reading of str.isalnum / str.isalpha)

  predicate IsDigit(c: char) { '0' <= c <= '9' }

  predicate IsLetter(c: char) { 'a' <= c <= 'z' || 'A' <= c <= 'Z' }

  predicate IsAlnumChar(c: char) { IsDigit(c) || IsLetter(c) }

  /** `s.isalnum()`: false on the empty string. */
  predicate IsAlnum(s: string) {
    |s| > 0 && forall i :: 0 <= i < |s| ==> IsAlnumChar(s[i])
  }

  /** `s.isalpha()`: false on the empty string. */
  predicate IsAlpha(s: string) {
    |s| > 0 && forall i :: 0 <= i < |s| ==> IsLetter(s[i])
  }

  /** Python truthiness of a value. */
  predicate Truthy(v: ArgValue) {
    match v
    case Str(s) => s != ""
    case Int(n) => n != 0
    case NoneValue => false
  }

  /** `v in current_app.config['MAPPING']`: the mapping is keyed by currency names. */
  predicate InMapping(v: ArgValue, mapping: set<string>) {
    v.Str? && v.s in mapping
  }

  // ---------------------------------------------------------------------
  // int(): an optional sign followed by decimal digits

  predicate AllDigits(s: string) {
    forall i :: 0 <= i < |s| ==> IsDigit(s[i])
  }

  function DigitsValue(s: string): nat
    requires AllDigits(s)
  {
    if s == [] then 0
    else DigitsValue(s[..|s| - 1]) * 10 + (s[|s| - 1] as int - '0' as int)
  }

  /** An optional sign followed by at least one decimal digit. */
  predicate IntLiteral(s: string) {
    && |s| > 0
    && forall i :: 0 <= i < |s| ==> IsDigit(s[i]) || (i == 0 && |s| > 1 && (s[0] == '+' || s[0] == '-'))
  }

  /** `int(s)`, or None where Python raises ValueError. */
  function ParseInt(s: string): (r: Option<int>)
    ensures r.Some? <==> IntLiteral(s)
    ensures r.Some? ==> exists i :: 0 <= i < |s| && IsDigit(s[i])
    ensures r.Some? && (s[0] == '+' || s[0] == '-') ==>
              AllDigits(s[1..]) && r.value == (if s[0] == '-' then -1 else 1) * DigitsValue(s[1..])
    ensures r.Some? && !(s[0] == '+' || s[0] == '-') ==> AllDigits(s) && r.value == DigitsValue(s)
  {
    if |s| > 1 && (s[0] == '+' || s[0] == '-') && AllDigits(s[1..]) then
      var m: int := DigitsValue(s[1..]);
      assert IsDigit(s[1..][0]);
      Some(if s[0] == '-' then -m else m)
    else if |s| > 0 && AllDigits(s) then
      assert IsDigit(s[0]);
      Some(DigitsValue(s))
    else None
  }

  function DigitChar(d: nat): char
    requires d < 10
  {
    ('0' as int + d) as char
  }

  /** `str(n)` for a natural number. */
  function Decimal(n: nat): string
  {
    if n < 10 then [DigitChar(n)] else Decimal(n / 10) + [DigitChar(n % 10)]
  }

  /** `str(n)`. */
  function IntString(n: int): string
  {
    if n < 0 then "-" + Decimal(-n) else Decimal(n)
  }

  lemma {:induction false} DecimalValue(n: nat)
    ensures |Decimal(n)| > 0 && AllDigits(Decimal(n)) && DigitsValue(Decimal(n)) == n
  {
    if n >= 10 {
      DecimalValue(n / 10);
      var d := Decimal(n / 10);
      assert Decimal(n)[..|Decimal(n)| - 1] == d;
    }
  }

  /** `int(str(n)) == n`: every integer a client can write is accepted and read back. */
  lemma ParseIntString(n: int)
    ensures ParseInt(IntString(n)) == Some(n)
  {
    if n < 0 {
      DecimalValue(-n);
      assert IntString(n)[1..] == Decimal(-n);
    } else {
      DecimalValue(n);
    }
  }

  // ---------------------------------------------------------------------
  // str.split(',')

  /** `s.split(',')`: never empty; empty pieces stand for adjacent, leading or trailing commas. */
  function SplitOnComma(s: string): (pieces: seq<string>)
    ensures |pieces| >= 1
    ensures forall i :: 0 <= i < |pieces| ==> ',' !in pieces[i]
  {
    if s == [] then [""]
    else
      var rest := SplitOnComma(s[1..]);
      if s[0] == ',' then [""] + rest
      else [[s[0]] + rest[0]] + rest[1..]
  }

  /** `','.join(pieces)`. */
  function JoinWithComma(pieces: seq<string>): string
    requires |pieces| >= 1
  {
    if |pieces| == 1 then pieces[0] else pieces[0] + "," + JoinWithComma(pieces[1..])
  }

  lemma {:induction false} JoinSplit(s: string)
    ensures JoinWithComma(SplitOnComma(s)) == s
  {
    if s != [] {
      JoinSplit(s[1..]);
      var rest := SplitOnComma(s[1..]);
      if s[0] == ',' {
        assert ([""] + rest)[1..] == rest;
      } else {
        var pieces := [[s[0]] + rest[0]] + rest[1..];
        if |rest| > 1 {
          assert pieces[1..] == rest[1..];
        }
      }
    }
  }

  lemma {:induction false} SplitAfterPiece(p: string, t: string)
    requires ',' !in p
    ensures SplitOnComma(p + "," + t) == [p] + SplitOnComma(t)
  {
    if p != [] {
      assert (p + "," + t)[1..] == p[1..] + "," + t;
      SplitAfterPiece(p[1..], t);
      assert [p[0]] + p[1..] == p;
    } else {
      assert (p + "," + t)[1..] == t;
    }
  }

  lemma {:induction false} SplitPlainPiece(p: string)
    requires ',' !in p
    ensures SplitOnComma(p) == [p]
  {
    if p != [] {
      SplitPlainPiece(p[1..]);
      assert [p[0]] + p[1..] == p;
    }
  }

  /** Splitting undoes joining for comma-free pieces. */
  lemma {:induction false} SplitJoin(pieces: seq<string>)
    requires |pieces| >= 1
    requires forall i :: 0 <= i < |pieces| ==> ',' !in pieces[i]
    ensures SplitOnComma(JoinWithComma(pieces)) == pieces
  {
    if |pieces| == 1 {
      SplitPlainPiece(pieces[0]);
    } else {
      SplitJoin(pieces[1..]);
      SplitAfterPiece(pieces[0], JoinWithComma(pieces[1..]));
    }
  }

  /** `all(a.isalnum() for a in s.split(','))`. */
  predicate PiecesAlnum(s: string) {
    var pieces := SplitOnComma(s);
    forall i :: 0 <= i < |pieces| ==> IsAlnum(pieces[i])
  }

  /** A comma-separated address list in which no address is empty. */
  predicate WellFormedList(s: string) {
    && s != []
    && s[0] != ','
    && s[|s| - 1] != ','
    && (forall i :: 0 <= i < |s| ==> s[i] == ',' || IsAlnumChar(s[i]))
    && (forall i :: 0 <= i < |s| - 1 ==> s[i] != ',' || s[i + 1] != ',')
  }

  lemma FirstPieceEmpty(t: string)
    ensures SplitOnComma(t)[0] == "" <==> t == [] || t[0] == ','
  {
  }

  /** The `addresses` check accepts exactly the lists without an empty
      piece (no "", no leading or trailing comma, no ",,") whose other
      characters are letters and digits. */
  lemma {:induction false} PiecesAlnumIffWellFormed(s: string)
    ensures PiecesAlnum(s) <==> WellFormedList(s)
    decreases |s|
  {
    if s == [] {
      assert SplitOnComma(s) == [""];
      assert !IsAlnum(SplitOnComma(s)[0]);
    } else if s[0] == ',' {
      assert SplitOnComma(s)[0] == "";
      assert !IsAlnum(SplitOnComma(s)[0]);
    } else if |s| == 1 {
      SingleCharList(s);
    } else if s[1] == ',' {
      PiecesAlnumIffWellFormed(s[2..]);
      CommaAfterFirstChar(s);
    } else {
      PiecesAlnumIffWellFormed(s[1..]);
      FirstPieceGrows(s);
    }
  }

  lemma SingleCharList(s: string)
    requires |s| == 1 && s[0] != ','
    ensures PiecesAlnum(s) <==> WellFormedList(s)
  {
    var rest := SplitOnComma(s[1..]);
    var pieces := SplitOnComma(s);
    assert pieces == [[s[0]] + rest[0]] + rest[1..];
    assert s[1..] == [];
    assert rest == [""];
    assert [s[0]] + rest[0] == [s[0]];
    assert pieces == [[s[0]]];
    assert PiecesAlnum(s) <==> IsAlnum(pieces[0]);
    assert IsAlnum(pieces[0]) <==> IsAlnumChar(s[0]) by {
      if IsAlnumChar(s[0]) {
        forall i | 0 <= i < |pieces[0]| ensures IsAlnumChar(pieces[0][i]) {
          assert pieces[0][i] == s[0];
        }
      }
      if IsAlnum(pieces[0]) {
        assert pieces[0][0] == s[0];
      }
    }
    assert WellFormedList(s) <==> IsAlnumChar(s[0]);
  }

  /** A one-character first piece followed by the rest of the list. */
  lemma CommaAfterFirstChar(s: string)
    requires |s| >= 2 && s[0] != ',' && s[1] == ','
    requires PiecesAlnum(s[2..]) <==> WellFormedList(s[2..])
    ensures PiecesAlnum(s) <==> WellFormedList(s)
  {
    var rest := SplitOnComma(s[1..]);
    var pieces := SplitOnComma(s);
    assert pieces == [[s[0]] + rest[0]] + rest[1..];
    var tail := SplitOnComma(s[2..]);
    assert s[1..][1..] == s[2..];
    assert rest == [""] + tail;
    assert rest[0] == "" && rest[1..] == tail;
    assert [s[0]] + rest[0] == [s[0]];
    assert pieces == [[s[0]]] + tail;
    if PiecesAlnum(s) {
      assert IsAlnum(pieces[0]);
      assert PiecesAlnum(s[2..]) by {
        forall i | 0 <= i < |tail| ensures IsAlnum(tail[i]) {
          assert tail[i] == pieces[i + 1];
        }
      }
      assert WellFormedList(s[2..]);
      assert IsAlnumChar(pieces[0][0]);
      forall i | 0 <= i < |s| ensures s[i] == ',' || IsAlnumChar(s[i]) {
        if i >= 2 { assert s[i] == s[2..][i - 2]; }
      }
      forall i | 0 <= i < |s| - 1 ensures s[i] != ',' || s[i + 1] != ',' {
        if i >= 2 { assert s[i] == s[2..][i - 2] && s[i + 1] == s[2..][i - 1]; }
      }
    }
    if WellFormedList(s) {
      assert s[2..][0] == s[2];
      assert WellFormedList(s[2..]) by {
        forall i | 0 <= i < |s[2..]| - 1 ensures s[2..][i] != ',' || s[2..][i + 1] != ',' {
          assert s[2..][i] == s[i + 2] && s[2..][i + 1] == s[i + 3];
        }
      }
      forall i | 0 <= i < |pieces| ensures IsAlnum(pieces[i]) {
        if i > 0 { assert pieces[i] == tail[i - 1]; }
      }
    }
  }

  /** The first character joins the first piece of the rest of the list. */
  lemma FirstPieceGrows(s: string)
    requires |s| >= 2 && s[0] != ',' && s[1] != ','
    requires PiecesAlnum(s[1..]) <==> WellFormedList(s[1..])
    ensures PiecesAlnum(s) <==> WellFormedList(s)
  {
    var rest := SplitOnComma(s[1..]);
    var pieces := SplitOnComma(s);
    assert pieces == [[s[0]] + rest[0]] + rest[1..];
    FirstPieceEmpty(s[1..]);
    assert rest[0] != "";
    if PiecesAlnum(s) {
      assert IsAlnum(pieces[0]);
      assert IsAlnumChar(pieces[0][0]);
      assert PiecesAlnum(s[1..]) by {
        assert IsAlnum(rest[0]) by {
          forall k | 0 <= k < |rest[0]| ensures IsAlnumChar(rest[0][k]) {
            assert rest[0][k] == pieces[0][k + 1];
          }
        }
        forall i | 1 <= i < |rest| ensures IsAlnum(rest[i]) {
          assert rest[i] == pieces[i];
        }
      }
      forall i | 0 <= i < |s| ensures s[i] == ',' || IsAlnumChar(s[i]) {
        if i >= 1 { assert s[i] == s[1..][i - 1]; }
      }
      forall i | 0 <= i < |s| - 1 ensures s[i] != ',' || s[i + 1] != ',' {
        if i >= 1 { assert s[i] == s[1..][i - 1] && s[i + 1] == s[1..][i]; }
      }
    }
    if WellFormedList(s) {
      assert WellFormedList(s[1..]) by {
        forall i | 0 <= i < |s[1..]| ensures s[1..][i] == ',' || IsAlnumChar(s[1..][i]) {
          assert s[1..][i] == s[i + 1];
        }
        forall i | 0 <= i < |s[1..]| - 1 ensures s[1..][i] != ',' || s[1..][i + 1] != ',' {
          assert s[1..][i] == s[i + 1] && s[1..][i + 1] == s[i + 2];
        }
      }
      forall i | 0 <= i < |pieces| ensures IsAlnum(pieces[i]) {
        if i == 0 {
          forall k | 0 <= k < |pieces[0]| ensures IsAlnumChar(pieces[0][k]) {
            if k > 0 { assert pieces[0][k] == rest[0][k - 1]; }
          }
        } else {
          assert pieces[i] == rest[i];
        }
      }
    }
  }

  // ---------------------------------------------------------------------
  // The per-argument rules

  /** The argument is let through without ending the walk: the
      guarantee a handler may rely on once validation returned normally. */
  predicate Passes(key: string, v: ArgValue, mapping: set<string>) {
    && (key in AlnumKeys ==> v.Str? && IsAlnum(v.s))
    && (key == "page" ==> !Truthy(v) || (v.Str? && IsAlnum(v.s)))
    && (key == "pagesize" ==> !Truthy(v) || v.Int? || (v.Str? && ParseInt(v.s).Some?))
    && (key == "limit" ==> !Truthy(v))
    && (key == "currency_optional" ==> !Truthy(v) || InMapping(v, mapping))
    && (key == "currency" ==> InMapping(v, mapping))
    && (key == "depth" ==> v.Int? && v.n <= MAX_DEPTH)
    && (key == "category" ==> !Truthy(v) || (v.Str? && IsAlpha(v.s)))
    && (key == "label" ==> v.Str? && |v.s| >= LABEL_PREFIX_LENGTH)
    && (key == "addresses" && v.Str? ==> WellFormedList(v.s))
    && key != "expression"
    && (key == "height" || key == "entity" ==> v != NoneValue)
  }

  /** The value has a type the check for its key cannot handle: `isalnum`,
      `isalpha`, `len` or `>` raise on it before any `abort` is reached. */
  predicate TypeFault(key: string, v: ArgValue) {
    || (key in {"page", "category", "label", "expression"} && Truthy(v) && !v.Str?)
    || (key == "depth" && !v.Int?)
  }

  /** One iteration of the validation loop. */
  function CheckArg(key: string, v: ArgValue, mapping: set<string>): (r: Step)
    ensures r == Continue <==> Passes(key, v, mapping)
    ensures r != Stop(Accepted)
    ensures r == Stop(Raised) <==> TypeFault(key, v)
    ensures r.Stop? && r.outcome.Abort? ==> r.outcome.code == 400 || r.outcome.code == 404
    ensures r == Stop(Abort(404)) <==>
              (key == "currency" && !InMapping(v, mapping)) ||
              (key == "currency_optional" && Truthy(v) && !InMapping(v, mapping))
    ensures r.Stop? && r.outcome.ReturnLimit? ==>
              && key == "limit"
              && ((v.Int? && v.n != 0 && r.outcome.limit == v.n) || (v.Str? && ParseInt(v.s) == Some(r.outcome.limit)))
    ensures r.Stop? && r.outcome.ReturnFlags? ==>
              && key == "expression"
              && v.Str? && v.s != ""
              && (|v.s| >= LABEL_PREFIX_LENGTH || IsAlnum(v.s))
              && r.outcome == ReturnFlags(|v.s| >= LABEL_PREFIX_LENGTH, IsAlnum(v.s))
  {
    if key == "addresses" && v.Str? then PiecesAlnumIffWellFormed(v.s); CheckArgCase(key, v, mapping)
    else CheckArgCase(key, v, mapping)
  }

  function CheckArgCase(key: string, v: ArgValue, mapping: set<string>): Step
  {
    if key in AlnumKeys then
      if v.Str? && IsAlnum(v.s) then Continue else Stop(Abort(400))
    else if key == "page" then
      if !Truthy(v) then Continue
      else if !v.Str? then Stop(Raised)
      else if IsAlnum(v.s) then Continue else Stop(Abort(400))
    else if key == "pagesize" then
      if Truthy(v) && v.Str? && ParseInt(v.s).None? then Stop(Abort(400)) else Continue
    else if key == "limit" then
      if !Truthy(v) then Continue
      else if v.Int? then Stop(ReturnLimit(v.n))
      else if v.Str? && ParseInt(v.s).Some? then Stop(ReturnLimit(ParseInt(v.s).value))
      else Stop(Abort(400))
    else if key == "currency_optional" then
      if Truthy(v) && !InMapping(v, mapping) then Stop(Abort(404)) else Continue
    else if key == "currency" then
      if InMapping(v, mapping) then Continue else Stop(Abort(404))
    else if key == "depth" then
      if !v.Int? then Stop(Raised)
      else if v.n > MAX_DEPTH then Stop(Abort(400)) else Continue
    else if key == "category" then
      if !Truthy(v) then Continue
      else if !v.Str? then Stop(Raised)
      else if IsAlpha(v.s) then Continue else Stop(Abort(400))
    else if key == "label" then
      if !Truthy(v) then Stop(Abort(400))
      else if !v.Str? then Stop(Raised)
      else if |v.s| < LABEL_PREFIX_LENGTH then Stop(Abort(400)) else Continue
    else if key == "addresses" then
      if v.Str? && !PiecesAlnum(v.s) then Stop(Abort(400)) else Continue
    else if key == "expression" then
      if !Truthy(v) then Stop(Abort(400))
      else if !v.Str? then Stop(Raised)
      else if |v.s| < LABEL_PREFIX_LENGTH && !IsAlnum(v.s) then Stop(Abort(400))
      else Stop(ReturnFlags(|v.s| >= LABEL_PREFIX_LENGTH, IsAlnum(v.s)))
    else if key == "height" || key == "entity" then
      if v == NoneValue then Stop(Abort(400)) else Continue
    else Continue
  }

  /** `check_inputs(**kwargs)` on the arguments in order. */
  function CheckAll(args: seq<Arg>, mapping: set<string>): (r: Outcome)
    ensures r == Accepted <==> forall i :: 0 <= i < |args| ==> Passes(args[i].0, args[i].1, mapping)
  {
    if args == [] then Accepted
    else
      match CheckArg(args[0].0, args[0].1, mapping)
      case Continue =>
        assert forall i :: 1 <= i < |args| ==> args[i] == args[1..][i - 1];
        CheckAll(args[1..], mapping)
      case Stop(o) => o
  }

  /** The first argument that does not pass decides the outcome; what
      follows it is never looked at. */
  lemma {:induction false} FirstStopDecides(pre: seq<Arg>, a: Arg, rest: seq<Arg>, mapping: set<string>)
    requires forall i :: 0 <= i < |pre| ==> Passes(pre[i].0, pre[i].1, mapping)
    requires !Passes(a.0, a.1, mapping)
    ensures CheckAll(pre + [a] + rest, mapping) == CheckArg(a.0, a.1, mapping).outcome
  {
    if pre != [] {
      assert (pre + [a] + rest)[1..] == pre[1..] + [a] + rest;
      FirstStopDecides(pre[1..], a, rest, mapping);
    }
  }

  /** A rejected or early-returning walk stops at a definite argument. */
  lemma {:induction false} StopHasCause(args: seq<Arg>, mapping: set<string>)
    requires CheckAll(args, mapping) != Accepted
    ensures exists k :: 0 <= k < |args| &&
              (forall i :: 0 <= i < k ==> Passes(args[i].0, args[i].1, mapping)) &&
              CheckArg(args[k].0, args[k].1, mapping) == Stop(CheckAll(args, mapping))
  {
    if Passes(args[0].0, args[0].1, mapping) {
      StopHasCause(args[1..], mapping);
      var k :| 0 <= k < |args[1..]| &&
               (forall i :: 0 <= i < k ==> Passes(args[1..][i].0, args[1..][i].1, mapping)) &&
               CheckArg(args[1..][k].0, args[1..][k].1, mapping) == Stop(CheckAll(args[1..], mapping));
      assert forall i :: 1 <= i < k + 1 ==> args[i] == args[1..][i - 1];
      assert args[k + 1] == args[1..][k];
    } else {
      assert CheckArg(args[0].0, args[0].1, mapping) == Stop(CheckAll(args, mapping));
    }
  }

  /** A `limit` that parses is returned as soon as it is reached, whatever follows. */
  lemma LimitReturnsEarly(pre: seq<Arg>, v: ArgValue, rest: seq<Arg>, mapping: set<string>, n: int)
    requires forall i :: 0 <= i < |pre| ==> Passes(pre[i].0, pre[i].1, mapping)
    requires (v == Int(n) && n != 0) || (v.Str? && ParseInt(v.s) == Some(n))
    ensures CheckAll(pre + [("limit", v)] + rest, mapping) == ReturnLimit(n)
  {
    FirstStopDecides(pre, ("limit", v), rest, mapping);
  }

  /** A non-empty search expression ends the walk with its two flags, and is
      rejected exactly when it is both too short for a label and not alphanumeric. */
  lemma ExpressionVerdict(pre: seq<Arg>, s: string, rest: seq<Arg>, mapping: set<string>)
    requires forall i :: 0 <= i < |pre| ==> Passes(pre[i].0, pre[i].1, mapping)
    requires s != ""
    ensures CheckAll(pre + [("expression", Str(s))] + rest, mapping) ==
              if |s| < LABEL_PREFIX_LENGTH && !IsAlnum(s) then Abort(400)
              else ReturnFlags(|s| >= LABEL_PREFIX_LENGTH, IsAlnum(s))
  {
    FirstStopDecides(pre, ("expression", Str(s)), rest, mapping);
  }

  // ---------------------------------------------------------------------
  // The validator as the web layer runs it

  /** The inner loop over `value.split(',')`. */
  method AddressPiecesValid(s: string) returns (ok: bool)
    ensures ok <==> WellFormedList(s)
  {
    PiecesAlnumIffWellFormed(s);
    var pieces := SplitOnComma(s);
    var i := 0;
    while i < |pieces|
      invariant 0 <= i <= |pieces|
      invariant forall j :: 0 <= j < i ==> IsAlnum(pieces[j])
    {
      if !IsAlnum(pieces[i]) {
        return false;
      }
      i := i + 1;
    }
    return true;
  }

  method CheckInputs(args: seq<Arg>, mapping: set<string>) returns (r: Outcome)
    ensures r == CheckAll(args, mapping)
  {
    var i := 0;
    while i < |args|
      invariant 0 <= i <= |args|
      invariant CheckAll(args, mapping) == CheckAll(args[i..], mapping)
    {
      var key, value := args[i].0, args[i].1;
      assert args[i..][0] == args[i] && args[i..][1..] == args[i + 1..];
      if key in AlnumKeys {
        if !value.Str? || !IsAlnum(value.s) {
          return Abort(400);
        }
      }
      if key == "page" {
        if Truthy(value) {
          if !value.Str? {
            return Raised;
          }
          if !IsAlnum(value.s) {
            return Abort(400);
          }
        }
      }
      if key == "pagesize" && Truthy(value) && value.Str? {
        var parsed := ParseInt(value.s);
        if parsed.None? {
          return Abort(400);
        }
        value := Int(parsed.value);
      }
      if key == "limit" && Truthy(value) {
        if value.Int? {
          return ReturnLimit(value.n);
        }
        var parsed := ParseInt(value.s);
        if parsed.Some? {
          return ReturnLimit(parsed.value);
        }
        return Abort(400);
      }
      if key == "currency_optional" {
        if Truthy(value) && !InMapping(value, mapping) {
          return Abort(404);
        }
      }
      if key == "currency" {
        if !InMapping(value, mapping) {
          return Abort(404);
        }
      }
      if key == "depth" {
        if !value.Int? {
          return Raised;
        }
        if value.n > MAX_DEPTH {
          return Abort(400);
        }
      }
      if key == "category" {
        if Truthy(value) {
          if !value.Str? {
            return Raised;
          }
          if !IsAlpha(value.s) {
            return Abort(400);
          }
        }
      }
      if key == "label" {
        if !Truthy(value) {
          return Abort(400);
        }
        if !value.Str? {
          return Raised;
        }
        if |value.s| < LABEL_PREFIX_LENGTH {
          return Abort(400);
        }
      }
      if key == "addresses" {
        if value.Str? {
          var ok := AddressPiecesValid(value.s);
          if !ok {
            return Abort(400);
          }
        }
      }
      if key == "expression" {
        if !Truthy(value) {
          return Abort(400);
        }
        if !value.Str? {
          return Raised;
        }
        var canBeLabel := false;
        var canBeTxAddress := false;
        if |value.s| >= LABEL_PREFIX_LENGTH {
          canBeLabel := true;
        }
        if IsAlnum(value.s) {
          canBeTxAddress := true;
        }
        if !canBeLabel && !canBeTxAddress {
          return Abort(400);
        }
        return ReturnFlags(canBeLabel, canBeTxAddress);
      } else if key == "height" || key == "entity" {
        if value == NoneValue {
          return Abort(400);
        }
      }
      i := i + 1;
    }
    return Accepted;
  }
}
