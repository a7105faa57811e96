/**
 * The argument handling of main (main.go:515-618): which verb runs and with
 * what arguments, including the clean-up of `-rm <id>` and `-y <command>
 * [description]`, and the default verb that captures the last command and
 * saves it.
 */
module Cli {
  import opened Wrappers
  import opened Text
  import History
  import Store

  const MinInt64: int := -0x8000_0000_0000_0000
  /** Go's int on a 64-bit platform has the range of a SQLite rowid. */
  const MaxInt64: int := Store.MaxRowId

  predicate IsDigit(c: char)
  {
    '0' <= c <= '9'
  }

  /** fmt's scanner skips white space before a number, except a newline, which ends the input. */
  predicate IsBlank(c: char)
  {
    IsSpace(c) && c != '\n'
  }

  predicate AllDigits(ds: string)
  {
    forall k :: 0 <= k < |ds| ==> IsDigit(ds[k])
  }

  function DigitsValue(ds: string): nat
    requires AllDigits(ds)
    decreases |ds|
  {
    if ds == [] then 0 else DigitsValue(ds[..|ds| - 1]) * 10 + (ds[|ds| - 1] as int - '0' as int)
  }

  /**
   * fmt.Sscanf(s, "%d", &id) into a 64-bit int, None when it reports an error:
   * leading blanks are skipped, an optional sign and at least one decimal digit
   * are read, the value must fit, and whatever follows the digits is ignored.
   */
  function ScanInt(s: string): (r: Option<int>)
    ensures r.Some? ==> MinInt64 <= r.value <= MaxInt64
  {
    var t := s[LeadingCount(s, IsBlank)..];
    if t == [] then None
    else if t[0] == '+' || t[0] == '-' then ScanMagnitude(t[1..], t[0] == '-')
    else ScanMagnitude(t, false)
  }

  /** The digits that open `u`, negated when a minus sign preceded them; None without digits or when out of range. */
  function ScanMagnitude(u: string, negative: bool): (r: Option<int>)
    ensures r.Some? ==> MinInt64 <= r.value <= MaxInt64
  {
    var n := LeadingCount(u, IsDigit);
    if n == 0 then None
    else
      var magnitude: int := DigitsValue(u[..n]);
      var v := if negative then -magnitude else magnitude;
      if v < MinInt64 || v > MaxInt64 then None else Some(v)
  }

  function DigitChar(d: nat): char
    requires d < 10
  {
    ('0' as int + d) as char
  }

  /** The decimal numeral of `n`, as a user would type it. */
  function DecimalString(n: nat): (s: string)
    ensures s != [] && AllDigits(s)
    decreases n
  {
    if n < 10 then [DigitChar(n)] else DecimalString(n / 10) + [DigitChar(n % 10)]
  }

  lemma {:induction false} DecimalValue(n: nat)
    ensures DigitsValue(DecimalString(n)) == n
    decreases n
  {
    if n >= 10 {
      DecimalValue(n / 10);
      var s := DecimalString(n);
      assert s[..|s| - 1] == DecimalString(n / 10);
    }
  }

  /** Every int64 numeral scans back to its value. */
  lemma ScanDecimal(n: nat)
    requires n <= MaxInt64
    ensures ScanInt(DecimalString(n)) == Some(n)
  {
    var s := DecimalString(n);
    DecimalValue(n);
    assert LeadingCount(s, IsBlank) == 0 by {
      assert IsDigit(s[0]);
    }
    assert s[0..] == s;
    assert LeadingCount(s, IsDigit) == |s|;
    assert s[..|s|] == s;
  }

  datatype Problem = RemoveNeedsId | RemoveBadId | SaveNeedsCommand

  /** What one invocation does. */
  datatype Action =
    | Help
    | ListAll
    | ListByDay
    | Clean
    | Remove(id: int)
    | SaveGiven(command: string, description: string)
    | Export(filename: string)
    | Import(filename: string)
    | SaveLast(description: string)
    | Usage(problem: Problem)

  /** `-rm` (main.go:538-552): exactly one further argument, which must scan as a positive id. */
  function RemoveArgs(args: seq<string>): (a: Action)
    ensures a.Remove? || a.Usage?
    ensures a.Remove? <==> |args| == 2 && ScanInt(args[1]).Some? && ScanInt(args[1]).value > 0
    ensures a.Remove? ==> a.id > 0 && ScanInt(args[1]) == Some(a.id)
    ensures |args| != 2 ==> a == Usage(RemoveNeedsId)
  {
    if |args| != 2 then Usage(RemoveNeedsId)
    else
      match ScanInt(args[1])
      case Some(id) => if id > 0 then Remove(id) else Usage(RemoveBadId)
      case None => Usage(RemoveBadId)
  }

  /**
   * `-y` (main.go:553-575): the command is the next argument, the description
   * the rest joined by spaces or "default"; both are trimmed of white space
   * and then of quotes.
   */
  function SaveArgs(args: seq<string>): (a: Action)
    ensures a.SaveGiven? || a == Usage(SaveNeedsCommand)
    ensures a.SaveGiven? <==> |args| >= 2
    ensures a.SaveGiven? ==> a.command == TrimQuotes(TrimSpace(args[1]))
    ensures a.SaveGiven? && |args| == 2 ==> a.description == "default"
    ensures a.SaveGiven? && |args| > 2 ==> a.description == TrimQuotes(TrimSpace(Join(args[2..], " ")))
    ensures a.SaveGiven? && a.command != [] ==> !IsQuote(a.command[0]) && !IsQuote(a.command[|a.command| - 1])
    ensures a.SaveGiven? && a.description != [] ==>
              !IsQuote(a.description[0]) && !IsQuote(a.description[|a.description| - 1])
  {
    if |args| < 2 then Usage(SaveNeedsCommand)
    else
      // strings.Trim leaves "default" as it is, so only a given description is trimmed
      var description := if |args| > 2 then TrimQuotes(TrimSpace(Join(args[2..], " "))) else "default";
      SaveGiven(TrimQuotes(TrimSpace(args[1])), description)
  }

  /** The optional file name of `-o` and `-i`, trimmed of quotes. */
  function FileArg(args: seq<string>): (name: string)
    ensures |args| <= 1 ==> name == []
    ensures |args| > 1 ==> name == TrimQuotes(args[1])
    ensures name != [] ==> !IsQuote(name[0]) && !IsQuote(name[|name| - 1])
  {
    if |args| > 1 then TrimQuotes(args[1]) else []
  }

  /** The description of the default verb (main.go:608-614). */
  function DefaultDescription(args: seq<string>): (d: string)
    ensures args == [] ==> d == "default"
    ensures args != [] ==> d == TrimSpace(Join(args, " "))
    ensures Trimmed(d)
  {
    if |args| > 0 then TrimSpace(Join(args, " ")) else "default"
  }

  /** The first arguments main treats as verbs. */
  predicate IsVerb(w: string)
  {
    w == "--help" || w == "-h" || w == "-l" || w == "-d" || w == "-c" || w == "-rm" || w == "-y" || w == "-o" || w == "-i"
  }

  /** main's dispatch, for `args` = os.Args[1:]. */
  function ParseArgs(args: seq<string>): Action
  {
    if args == [] then SaveLast(DefaultDescription(args))
    else if args[0] == "--help" || args[0] == "-h" then Help
    else if args[0] == "-l" then ListAll
    else if args[0] == "-d" then ListByDay
    else if args[0] == "-c" then Clean
    else if args[0] == "-rm" then RemoveArgs(args)
    else if args[0] == "-y" then SaveArgs(args)
    else if args[0] == "-o" then Export(FileArg(args))
    else if args[0] == "-i" then Import(FileArg(args))
    else SaveLast(DefaultDescription(args))
  }

  /** The verbs without arguments of their own lead to their own actions, and only they do. */
  lemma PlainVerbs(args: seq<string>)
    ensures ParseArgs(args).Help? <==> args != [] && (args[0] == "--help" || args[0] == "-h")
    ensures ParseArgs(args).ListAll? <==> args != [] && args[0] == "-l"
    ensures ParseArgs(args).ListByDay? <==> args != [] && args[0] == "-d"
    ensures ParseArgs(args).Clean? <==> args != [] && args[0] == "-c"
  {
  }

  /** `-o` and `-i` lead to export and import of the given file name, and only they do. */
  lemma FileVerbs(args: seq<string>)
    ensures ParseArgs(args).Export? <==> args != [] && args[0] == "-o"
    ensures ParseArgs(args).Import? <==> args != [] && args[0] == "-i"
    ensures (ParseArgs(args).Export? || ParseArgs(args).Import?) ==> ParseArgs(args).filename == FileArg(args)
  {
  }

  /** `-rm` always ends in a removal or a usage error about the id, and nothing else does. */
  lemma RemoveVerb(args: seq<string>)
    ensures var a := ParseArgs(args);
            (a.Remove? || a == Usage(RemoveNeedsId) || a == Usage(RemoveBadId)) <==> args != [] && args[0] == "-rm"
  {
  }

  /** `-y` always ends in a save of the given command or a usage error about it, and nothing else does. */
  lemma SaveVerb(args: seq<string>)
    ensures var a := ParseArgs(args);
            (a.SaveGiven? || a == Usage(SaveNeedsCommand)) <==> args != [] && args[0] == "-y"
  {
  }

  /** Exactly the invocations whose first argument is no verb save the last command, with DefaultDescription. */
  lemma DefaultVerb(args: seq<string>)
    ensures ParseArgs(args).SaveLast? <==> args == [] || !IsVerb(args[0])
    ensures ParseArgs(args).SaveLast? ==> ParseArgs(args).description == DefaultDescription(args)
  {
  }

  /** `-rm` accepts only a positive id that scans, and then removes exactly that id. */
  lemma RemoveOnlyPositive(args: seq<string>)
    ensures ParseArgs(args).Remove? ==>
              && |args| == 2 && args[0] == "-rm"
              && ParseArgs(args).id > 0 && ScanInt(args[1]) == Some(ParseArgs(args).id)
  {
  }

  /** Every positive int64 typed after `-rm` reaches deleteCommand unchanged. */
  lemma RemoveAcceptsNumeral(n: nat)
    requires 0 < n <= MaxInt64
    ensures ParseArgs(["-rm", DecimalString(n)]) == Remove(n)
  {
    ScanDecimal(n);
  }

  /** A scan finds nothing in text without a decimal digit. */
  lemma ScanRejectsNoDigit(s: string)
    requires forall k :: 0 <= k < |s| ==> !IsDigit(s[k])
    ensures ScanInt(s).None?
  {
    var b := LeadingCount(s, IsBlank);
    var t := s[b..];
    if t != [] {
      var u := if t[0] == '+' || t[0] == '-' then t[1..] else t;
      assert forall k :: 0 <= k < |u| ==> !IsDigit(u[k]);
    }
  }

  /**
   * Blanks, an optional sign, a numeral and text that does not continue the
   * numeral scan as the signed value when it fits in an int64, and fail otherwise.
   */
  lemma ScanNumeral(blanks: string, sign: string, ds: string, rest: string)
    requires forall k :: 0 <= k < |blanks| ==> IsBlank(blanks[k])
    requires sign == [] || (|sign| == 1 && (sign[0] == '+' || sign[0] == '-'))
    requires ds != [] && AllDigits(ds)
    requires rest == [] || !IsDigit(rest[0])
    ensures ScanInt(blanks + sign + ds + rest) == SignedScan(DigitsValue(ds), sign != [] && sign[0] == '-')
  {
    if sign == [] {
      assert blanks + sign + ds + rest == blanks + (ds + rest);
      ScanUnsigned(blanks, ds, rest);
    } else {
      assert blanks + sign + ds + rest == blanks + ([sign[0]] + (ds + rest));
      ScanSigned(blanks, sign[0], ds, rest);
    }
  }

  /** An unsigned numeral after the blanks. */
  lemma ScanUnsigned(blanks: string, ds: string, rest: string)
    requires forall k :: 0 <= k < |blanks| ==> IsBlank(blanks[k])
    requires ds != [] && AllDigits(ds)
    requires rest == [] || !IsDigit(rest[0])
    ensures ScanInt(blanks + (ds + rest)) == SignedScan(DigitsValue(ds), false)
  {
    MagnitudeOfNumeral(ds, rest, false);
    assert (ds + rest)[0] == ds[0];
    ScanSkipsBlanks(blanks, ds + rest);
  }

  /** A numeral after the blanks and one sign rune. */
  lemma ScanSigned(blanks: string, c: char, ds: string, rest: string)
    requires forall k :: 0 <= k < |blanks| ==> IsBlank(blanks[k])
    requires c == '+' || c == '-'
    requires ds != [] && AllDigits(ds)
    requires rest == [] || !IsDigit(rest[0])
    ensures ScanInt(blanks + ([c] + (ds + rest))) == SignedScan(DigitsValue(ds), c == '-')
  {
    MagnitudeOfNumeral(ds, rest, c == '-');
    assert ([c] + (ds + rest))[1..] == ds + rest;
    ScanSkipsBlanks(blanks, [c] + (ds + rest));
  }

  /** What a numeral of magnitude `n` scans as: the signed value when it fits in an int64, None otherwise. */
  function SignedScan(n: nat, negative: bool): Option<int>
  {
    var v: int := if negative then -(n as int) else n;
    if MinInt64 <= v <= MaxInt64 then Some(v) else None
  }

  /** The scan starts where the leading blanks end. */
  lemma ScanSkipsBlanks(blanks: string, t: string)
    requires forall k :: 0 <= k < |blanks| ==> IsBlank(blanks[k])
    requires t != [] && !IsBlank(t[0])
    ensures ScanInt(blanks + t)
            == if t[0] == '+' || t[0] == '-' then ScanMagnitude(t[1..], t[0] == '-') else ScanMagnitude(t, false)
  {
    LeadingCountExact(blanks + t, IsBlank, |blanks|);
    assert (blanks + t)[|blanks|..] == t;
  }

  /** A numeral followed by a non-digit is read whole. */
  lemma MagnitudeOfNumeral(ds: string, rest: string, negative: bool)
    requires ds != [] && AllDigits(ds)
    requires rest == [] || !IsDigit(rest[0])
    ensures ScanMagnitude(ds + rest, negative) == SignedScan(DigitsValue(ds), negative)
  {
    LeadingCountExact(ds + rest, IsDigit, |ds|);
    assert (ds + rest)[..|ds|] == ds;
  }

  /**
   * Conversely, text that scans is written as a numeral: blanks, at most one
   * sign, at least one digit, then the end or a non-digit; so "x7", "\n7",
   * "++7" and "- 7" are all rejected.
   */
  lemma ScanIntForm(s: string) returns (blanks: string, sign: string, ds: string, rest: string)
    requires ScanInt(s).Some?
    ensures s == blanks + sign + ds + rest
    ensures forall k :: 0 <= k < |blanks| ==> IsBlank(blanks[k])
    ensures sign == [] || (|sign| == 1 && (sign[0] == '+' || sign[0] == '-'))
    ensures ds != [] && AllDigits(ds)
    ensures rest == [] || !IsDigit(rest[0])
    ensures ScanInt(s) == SignedScan(DigitsValue(ds), sign != [] && sign[0] == '-')
  {
    var b := LeadingCount(s, IsBlank);
    var t := s[b..];
    var m := if t[0] == '+' || t[0] == '-' then 1 else 0;
    var u := t[m..];
    var n := LeadingCount(u, IsDigit);
    assert n > 0;
    blanks, sign, ds, rest := s[..b], t[..m], u[..n], u[n..];
    SplitInFour(s, b, m, n);
    ScanNumeral(blanks, sign, ds, rest);
  }

  /** Cutting after the blanks, after the sign and after the digits loses nothing. */
  lemma SplitInFour(s: string, b: nat, m: nat, n: nat)
    requires b + m + n <= |s|
    ensures s == s[..b] + s[b..][..m] + s[b..][m..][..n] + s[b..][m..][n..]
  {
    assert s[b..][..m] == s[b..b + m];
    assert s[b..][m..][..n] == s[b + m..b + m + n];
    assert s[b..][m..][n..] == s[b + m + n..];
    assert s == s[..b] + s[b..b + m] + s[b + m..b + m + n] + s[b + m + n..];
  }

  /** Text without a digit after `-rm` is refused as an id. */
  lemma RemoveRejectsNonNumeral(arg: string)
    requires forall k :: 0 <= k < |arg| ==> !IsDigit(arg[k])
    ensures ParseArgs(["-rm", arg]) == Usage(RemoveBadId)
  {
    ScanRejectsNoDigit(arg);
  }

  /**
   * A signed numeral after `-rm`, possibly followed by other text, removes
   * that id exactly when it is positive and fits in an int64; so `-rm 7abc`
   * removes 7 while `-rm 0`, `-rm -7` and a numeral past 2^63-1 are refused.
   */
  lemma RemoveNumeral(sign: string, n: nat, rest: string)
    requires sign == [] || (|sign| == 1 && (sign[0] == '+' || sign[0] == '-'))
    requires rest == [] || !IsDigit(rest[0])
    ensures ParseArgs(["-rm", sign + DecimalString(n) + rest])
            == if !(sign != [] && sign[0] == '-') && 0 < n <= MaxInt64 then Remove(n) else Usage(RemoveBadId)
  {
    var arg := sign + DecimalString(n) + rest;
    var negative := sign != [] && sign[0] == '-';
    assert ScanInt(arg) == SignedScan(n, negative) by {
      DecimalValue(n);
      ScanNumeral([], sign, DecimalString(n), rest);
      assert [] + sign + DecimalString(n) + rest == arg;
    }
    RemoveRoute(arg);
  }

  /** `-rm` with one argument is decided by the scan of that argument alone. */
  lemma RemoveRoute(arg: string)
    ensures ParseArgs(["-rm", arg])
            == if ScanInt(arg).Some? && ScanInt(arg).value > 0 then Remove(ScanInt(arg).value) else Usage(RemoveBadId)
  {
  }

  /** The verbs that take no store change never yield a save. */
  lemma SaveOnlyFromSaveVerbs(args: seq<string>)
    ensures ParseArgs(args).SaveGiven? ==> |args| >= 2 && args[0] == "-y"
    ensures ParseArgs(args).SaveLast? ==>
              args == [] || !IsVerb(args[0])
  {
  }

  /**
   * The default verb (main.go:597-617): capture the last command; when there
   * is none nothing is saved, otherwise it is saved with the description.
   */
  method SaveLastCommand(store: Store.CommandStore, env: History.Env, description: string, now: int, fault: bool)
    returns (saved: bool)
    requires store.Valid()
    modifies store
    ensures store.Valid()
    ensures History.LastCommand(env) == [] ==> !saved && store.Snapshot() == old(store.Snapshot())
    ensures History.LastCommand(env) != [] ==>
              (store.Snapshot(), saved)
              == Store.Insert(old(store.Snapshot()), History.LastCommand(env), TrimSpace(description), now, fault)
  {
    var lastCommand := History.GetLastCommand(env);
    if lastCommand == [] {
      return false;
    }
    CapturedIsTrimmed(env);
    saved := store.SaveCommand(lastCommand, description, now, fault);
  }

  /** saveCommand trims the description once more; the default verb's description survives that unchanged. */
  lemma DescriptionStoredAsIs(args: seq<string>)
    ensures TrimSpace(DefaultDescription(args)) == DefaultDescription(args)
  {
    TrimSpaceOfTrimmed(DefaultDescription(args));
  }

  /** A single all-blank argument, such as `cs ""`, saves with an empty description rather than "default". */
  lemma BlankArgumentGivesEmptyDescription(arg: string)
    requires forall k :: 0 <= k < |arg| ==> IsSpace(arg[k])
    ensures ParseArgs([arg]) == SaveLast([])
  {
    assert Join([arg], " ") == arg;
    if arg != [] {
      assert IsSpace(arg[0]);
    }
  }

  /** A captured command is already trimmed, so saving it stores it as captured. */
  lemma CapturedIsTrimmed(env: History.Env)
    ensures History.LastCommand(env) != [] ==> TrimSpace(History.LastCommand(env)) == History.LastCommand(env)
  {
    TrimSpaceOfTrimmed(History.LastCommand(env));
  }
}
