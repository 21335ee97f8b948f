/** plugin/scripts/chain-wait.sh: its argument loop, its duration parser and its poll loop. */
module ChainWait {
  import opened Prelude

  // ----- the argument loop

  datatype Args = Wait(id: string, duration: string) | Help | Refused

  predicate StartsWith(s: string, prefix: string) {
    prefix <= s
  }

  const TIMEOUT_EQ := "--timeout="

  /** One round of the loop consumes one or two arguments. */
  datatype Token = Positional(s: string) | Timeout(d: string) | HelpFlag | Bad

  function FirstToken(args: seq<string>): (Token, seq<string>)
    requires args != []
  {
    if args[0] == "--timeout" then
      if |args| == 1 then (Bad, []) else (Timeout(args[1]), args[2..])
    else if StartsWith(args[0], TIMEOUT_EQ) then (Timeout(args[0][|TIMEOUT_EQ|..]), args[1..])
    else if args[0] == "--help" || args[0] == "-h" then (HelpFlag, args[1..])
    else if StartsWith(args[0], "--") then (Bad, args[1..])
    else (Positional(args[0]), args[1..])
  }

  function Tokens(args: seq<string>): seq<Token>
    decreases |args|
  {
    if args == [] then []
    else
      var (t, rest) := FirstToken(args);
      [t] + Tokens(rest)
  }

  function Positionals(ts: seq<Token>): seq<string> {
    if ts == [] then []
    else if ts[0].Positional? then [ts[0].s] + Positionals(ts[1..])
    else Positionals(ts[1..])
  }

  function LastTimeout(ts: seq<Token>, initial: string): string {
    if ts == [] then initial
    else LastTimeout(ts[1..], if ts[0].Timeout? then ts[0].d else initial)
  }

  /** One positional argument, possibly after empty ones, which the script does not see. */
  predicate OnlyId(ps: seq<string>, id: string) {
    && id != "" && ps != [] && ps[|ps| - 1] == id
    && forall i | 0 <= i < |ps| - 1 :: ps[i] == ""
  }

  /** What follows the arguments already seen. */
  predicate Accepts(ts: seq<Token>, seen: string, duration: string, r: Args) {
    && r.Wait?
    && (forall i | 0 <= i < |ts| :: ts[i].Positional? || ts[i].Timeout?)
    && OnlyId((if seen == "" then [] else [seen]) + Positionals(ts), r.id)
    && r.duration == LastTimeout(ts, duration)
  }

  /** The token that ends the loop is a help flag. */
  predicate AsksHelp(ts: seq<Token>, seen: string) {
    ts != [] &&
    match ts[0]
    case HelpFlag => true
    case Bad => false
    case Timeout(_) => AsksHelp(ts[1..], seen)
    case Positional(s) => seen == "" && AsksHelp(ts[1..], s)
  }

  lemma {:induction false} AcceptsStep(t: Token, ts: seq<Token>, seen: string, duration: string, r: Args)
    requires t.Positional? ==> seen == ""
    requires t.Positional? || t.Timeout?
    ensures Accepts([t] + ts, seen, duration, r) <==>
            if t.Timeout? then Accepts(ts, seen, t.d, r) else Accepts(ts, t.s, duration, r)
  {
    var all := [t] + ts;
    assert all[1..] == ts;
    assert (forall i | 0 <= i < |all| :: all[i].Positional? || all[i].Timeout?) <==>
           (forall i | 0 <= i < |ts| :: ts[i].Positional? || ts[i].Timeout?) by {
      if forall i | 0 <= i < |all| :: all[i].Positional? || all[i].Timeout? {
        forall i | 0 <= i < |ts| ensures ts[i].Positional? || ts[i].Timeout? {
          assert all[i + 1] == ts[i];
        }
      }
    }
    if t.Positional? && r.Wait? {
      var ps := Positionals(ts);
      assert Positionals(all) == [t.s] + ps;
      if t.s == "" {
        assert OnlyId([""] + ps, r.id) <==> OnlyId(ps, r.id) by {
          if OnlyId([""] + ps, r.id) {
            forall i | 0 <= i < |ps| - 1 ensures ps[i] == "" {
              assert ([""] + ps)[i + 1] == ps[i];
            }
          }
        }
        assert [] + ([""] + ps) == [""] + ps && [] + ps == ps;
      } else {
        assert [] + ([t.s] + ps) == [t.s] + ps;
      }
    }
  }

  lemma {:induction false} SecondPositionalRefused(t: Token, ts: seq<Token>, seen: string, duration: string, r: Args)
    requires t.Positional? && seen != ""
    ensures !Accepts([t] + ts, seen, duration, r)
  {
    var ps := [seen] + Positionals([t] + ts);
    assert |ps| >= 2 && ps[0] == seen;
  }

  lemma OtherTokenRefused(t: Token, ts: seq<Token>, seen: string, duration: string, r: Args)
    requires t.HelpFlag? || t.Bad?
    ensures !Accepts([t] + ts, seen, duration, r)
  {
    assert ([t] + ts)[0] == t;
  }

  /**
   * The loop accepts a command line exactly when it consists of one id and any number of timeouts, in any order; the
   * last timeout counts. It ends in the usage text exactly when the first argument it does not pass over is a help
   * flag.
   */
  method ParseArgs(args: seq<string>) returns (r: Args)
    ensures r.Wait? ==> Accepts(Tokens(args), "", "", r)
    ensures !r.Wait? ==> forall q :: !Accepts(Tokens(args), "", "", q)
    ensures r.Help? <==> AsksHelp(Tokens(args), "")
  {
    var id, duration := "", "";
    var rest := args;
    while rest != []
      invariant forall q :: Accepts(Tokens(args), "", "", q) <==> Accepts(Tokens(rest), id, duration, q)
      invariant AsksHelp(Tokens(args), "") <==> AsksHelp(Tokens(rest), id)
      decreases |rest|
    {
      ghost var (t, tail) := FirstToken(rest);
      ghost var ts := Tokens(tail);
      assert Tokens(rest) == [t] + ts && ([t] + ts)[1..] == ts;
      if rest[0] == "--timeout" {
        if |rest| == 1 {
          forall q ensures !Accepts(Tokens(rest), id, duration, q) { OtherTokenRefused(t, ts, id, duration, q); }
          return Refused;
        }
        forall q ensures Accepts([t] + ts, id, duration, q) <==> Accepts(ts, id, t.d, q) {
          AcceptsStep(t, ts, id, duration, q);
        }
        duration := rest[1];
        rest := rest[2..];
      } else if StartsWith(rest[0], TIMEOUT_EQ) {
        forall q ensures Accepts([t] + ts, id, duration, q) <==> Accepts(ts, id, t.d, q) {
          AcceptsStep(t, ts, id, duration, q);
        }
        duration := rest[0][|TIMEOUT_EQ|..];
        rest := rest[1..];
      } else if rest[0] == "--help" || rest[0] == "-h" {
        forall q ensures !Accepts(Tokens(rest), id, duration, q) { OtherTokenRefused(t, ts, id, duration, q); }
        return Help;
      } else if StartsWith(rest[0], "--") {
        forall q ensures !Accepts(Tokens(rest), id, duration, q) { OtherTokenRefused(t, ts, id, duration, q); }
        return Refused;
      } else {
        if id != "" {
          forall q ensures !Accepts(Tokens(rest), id, duration, q) { SecondPositionalRefused(t, ts, id, duration, q); }
          return Refused;
        }
        forall q ensures Accepts([t] + ts, id, duration, q) <==> Accepts(ts, t.s, duration, q) {
          AcceptsStep(t, ts, id, duration, q);
        }
        id := rest[0];
        rest := rest[1..];
      }
    }
    if id == "" {
      assert forall q :: !Accepts([], "", duration, q);
      return Refused;
    }
    r := Wait(id, duration);
    assert Accepts([], id, duration, r);
  }

  /** What each kind of argument is to the loop. */
  lemma ArgumentKinds(a: string, d: string, rest: seq<string>)
    ensures Tokens(["--timeout", d] + rest) == [Timeout(d)] + Tokens(rest)
    ensures Tokens(["--timeout"]) == [Bad]
    ensures Tokens(["--timeout=" + d] + rest) == [Timeout(d)] + Tokens(rest)
    ensures Tokens(["--help"] + rest) == [HelpFlag] + Tokens(rest) && Tokens(["-h"] + rest) == [HelpFlag] + Tokens(rest)
    ensures a != "-h" && !("--" <= a) ==> Tokens([a] + rest) == [Positional(a)] + Tokens(rest)
    ensures "--" <= a && a != "--help" && a != "--timeout" && !("--timeout=" <= a) ==>
              Tokens([a] + rest) == [Bad] + Tokens(rest)
  {
    assert (["--timeout", d] + rest)[2..] == rest && (["--timeout"] + rest)[1..] == rest;
    assert (["--timeout=" + d] + rest)[1..] == rest && ("--timeout=" + d)[|TIMEOUT_EQ|..] == d;
    assert (["--help"] + rest)[1..] == rest && (["-h"] + rest)[1..] == rest && ([a] + rest)[1..] == rest;
    assert "--" <= a ==> a[1] == "--"[1] && a != "-h" by {
      assert "-h"[1] == 'h' && "--"[1] == '-';
    }
  }

  /** The documented command lines: an id alone, and with a timeout in either form on either side. */
  lemma UsageForms(id: string, d: string)
    requires id != "" && id != "-h" && !("--" <= id)
    ensures Accepts(Tokens([id]), "", "", Wait(id, ""))
    ensures Accepts(Tokens([id, "--timeout", d]), "", "", Wait(id, d))
    ensures Accepts(Tokens(["--timeout", d, id]), "", "", Wait(id, d))
    ensures Accepts(Tokens([id, "--timeout=" + d]), "", "", Wait(id, d))
    ensures Accepts(Tokens(["--timeout=" + d, id]), "", "", Wait(id, d))
  {
    ArgumentKinds(id, d, []);
    ArgumentKinds(id, d, [id]);
    ArgumentKinds(id, d, ["--timeout", d]);
    ArgumentKinds(id, d, ["--timeout=" + d]);
    var p, t := Positional(id), Timeout(d);
    assert [id] == [id] + [] && [id, "--timeout", d] == [id] + ["--timeout", d];
    assert ["--timeout", d, id] == ["--timeout", d] + [id] && [id, "--timeout=" + d] == [id] + ["--timeout=" + d];
    assert ["--timeout=" + d, id] == ["--timeout=" + d] + [id];
    assert ["--timeout", d] == ["--timeout", d] + [] && ["--timeout=" + d] == ["--timeout=" + d] + [];
    assert [p] + [] == [p] && [t] + [] == [t] && [p] + [t] == [p, t] && [t] + [p] == [t, p];
    OneIdAccepted(id, d);
  }

  /** Of several timeouts the last one counts, wherever the id stands. */
  lemma LastTimeoutCounts(id: string, d: string, e: string)
    requires id != "" && id != "-h" && !("--" <= id)
    ensures Accepts(Tokens(["--timeout", d, "--timeout=" + e, id]), "", "", Wait(id, e))
    ensures Accepts(Tokens(["--timeout=" + d, id, "--timeout", e]), "", "", Wait(id, e))
  {
    var p, t, u := Positional(id), Timeout(d), Timeout(e);
    ArgumentKinds(id, d, ["--timeout=" + e] + [id]);
    ArgumentKinds(id, e, [id]);
    ArgumentKinds(id, d, [id] + ["--timeout", e]);
    ArgumentKinds(id, e, []);
    ArgumentKinds(id, e, ["--timeout", e]);
    assert ["--timeout", d, "--timeout=" + e, id] == ["--timeout", d] + (["--timeout=" + e] + [id]);
    assert ["--timeout=" + d, id, "--timeout", e] == ["--timeout=" + d] + ([id] + ["--timeout", e]);
    assert [id] == [id] + [] && ["--timeout", e] == ["--timeout", e] + [];
    assert [p] + [] == [p] && [u] + [] == [u] && [p] + [u] == [p, u] && [u] + [p] == [u, p];
    IdAndTimeout(p, u, d);
    AcceptsStep(t, [u, p], "", "", Wait(id, e));
    AcceptsStep(t, [p, u], "", "", Wait(id, e));
  }

  lemma IdAndTimeout(p: Token, u: Token, d: string)
    requires p.Positional? && p.s != "" && u.Timeout?
    ensures Accepts([u, p], "", d, Wait(p.s, u.d)) && Accepts([p, u], "", d, Wait(p.s, u.d))
  {
    assert [u, p][1..] == [p] && [p, u][1..] == [u] && [p][1..] == [] && [u][1..] == [];
    assert Positionals([u]) == [] && Positionals([p]) == [p.s];
    assert Positionals([u, p]) == Positionals([p]) && Positionals([p, u]) == [p.s] + Positionals([u]);
    assert LastTimeout([u, p], d) == LastTimeout([p], u.d) == LastTimeout([], u.d);
    assert LastTimeout([p, u], d) == LastTimeout([u], d) == LastTimeout([], u.d);
  }

  /** One id is needed and two are refused; only a help flag that the loop reaches is answered. */
  lemma RefusedForms(id: string, other: string, rest: seq<string>, d: string, q: Args)
    requires id != "" && id != "-h" && !("--" <= id)
    requires other != "" && other != "-h" && !("--" <= other)
    ensures !Accepts([], "", "", q) && !Accepts(Tokens(["--timeout", d]), "", "", q)
    ensures !Accepts(Tokens([id] + ([other] + rest)), "", "", q) && !AsksHelp(Tokens([id] + ([other] + rest)), "")
    ensures !Accepts(Tokens(["--help"] + rest), "", "", q) && AsksHelp(Tokens([id] + (["--help"] + rest)), "")
  {
    ArgumentKinds(id, d, []);
    ArgumentKinds(id, d, [other] + rest);
    ArgumentKinds(other, d, rest);
    ArgumentKinds(id, d, ["--help"] + rest);
    var p, o, ts := Positional(id), Positional(other), Tokens(rest);
    assert ["--timeout", d] == ["--timeout", d] + [] && [Timeout(d)] + [] == [Timeout(d)];
    AcceptsStep(Timeout(d), [], "", "", q);
    AcceptsStep(p, [o] + ts, "", "", q);
    SecondPositionalRefused(o, ts, id, "", q);
    OtherTokenRefused(HelpFlag, ts, "", "", q);
    assert ([p] + ([o] + ts))[1..] == [o] + ts && ([p] + ([HelpFlag] + ts))[1..] == [HelpFlag] + ts;
  }

  lemma OneIdAccepted(id: string, d: string)
    requires id != ""
    ensures
      var p, t := Positional(id), Timeout(d);
      && Accepts([p], "", "", Wait(id, "")) && Accepts([p, t], "", "", Wait(id, d))
      && Accepts([t, p], "", "", Wait(id, d))
  {
    var p, t := Positional(id), Timeout(d);
    assert [p, t][1..] == [t] && [t, p][1..] == [p] && [p][1..] == [] && [t][1..] == [];
    assert Positionals([t]) == [] && Positionals([p]) == [id];
    assert Positionals([p, t]) == [id] + Positionals([t]) && Positionals([t, p]) == Positionals([p]);
    assert LastTimeout([t], "") == LastTimeout([], d) == d && LastTimeout([p], d) == LastTimeout([], d);
  }

  // ----- the duration parser

  const MAX_SECONDS := 604800

  predicate IsDigit(c: char) {
    '0' <= c <= '9'
  }

  predicate AllDigits(n: string) {
    n != "" && forall i | 0 <= i < |n| :: IsDigit(n[i])
  }

  /** The value of digits in a base; None when a digit is too large for it. */
  function Value(n: string, base: nat): Option<nat>
    requires forall i | 0 <= i < |n| :: IsDigit(n[i])
  {
    if n == "" then Some(0)
    else
      assert IsDigit(n[|n| - 1]);
      var d := (n[|n| - 1] - '0') as nat;
      match Value(n[..|n| - 1], base)
      case Some(v) => if d < base then Some(base * v + d) else None
      case None => None
  }

  /** A number in shell arithmetic: a leading zero makes it octal. */
  function Arithmetic(n: string): Option<nat>
    requires AllDigits(n)
  {
    Value(n, if n[0] == '0' then 8 else 10)
  }

  /** The seconds a duration is worth, if it is digits and one suffix. */
  function Worth(d: string): Option<nat> {
    if d == "" || !AllDigits(d[..|d| - 1]) then None
    else
      var n := d[..|d| - 1];
      match d[|d| - 1]
      case 's' => Value(n, 10)
      case 'm' => (match Arithmetic(n) case Some(v) => Some(60 * v) case None => None)
      case 'h' => (match Arithmetic(n) case Some(v) => Some(3600 * v) case None => None)
      case _ => None
  }

  /** The prefix before a suffix character, as "${d%s}" gives it. */
  function WithoutLast(d: string): string
    requires d != ""
  {
    d[..|d| - 1]
  }

  predicate EndsIn(d: string, c: char) {
    d != "" && d[|d| - 1] == c
  }

  /** OutOfRange: the shell's 64-bit arithmetic need not be exact, and what it does then is not modelled. */
  datatype Duration = Budget(seconds: nat) | BadDuration | OutOfRange

  const MAX_DIGITS := 15

  /**
   * The empty duration means no timeout and leaves the budget at zero. Any other text is a budget exactly when it is
   * worth 1 to 604800 seconds, and refused otherwise, as long as it has no more than 15 digits.
   */
  method ParseDuration(duration: string) returns (r: Duration)
    ensures r.OutOfRange? <==>
              && |duration| > 16 && AllDigits(duration[..|duration| - 1])
              && UnitSeconds(duration[|duration| - 1]).Some?
    ensures duration == "" ==> r == Budget(0)
    ensures duration != "" && !r.OutOfRange? ==>
              r == match Worth(duration)
                   case Some(w) => if 1 <= w <= 604800 then Budget(w) else BadDuration
                   case None => BadDuration
  {
    var budget := 0;
    if duration != "" {
      var n := WithoutLast(duration);
      if EndsIn(duration, 's') {
        if !AllDigits(n) {
          return BadDuration;
        }
        if |n| > MAX_DIGITS {
          return OutOfRange;
        }
        DecimalValue(n);
        budget := Value(n, 10).value;
      } else if EndsIn(duration, 'm') {
        if !AllDigits(n) {
          return BadDuration;
        }
        if |n| > MAX_DIGITS {
          return OutOfRange;
        }
        if Arithmetic(n) == None {
          return BadDuration;
        }
        budget := Arithmetic(n).value * 60;
      } else if EndsIn(duration, 'h') {
        if !AllDigits(n) {
          return BadDuration;
        }
        if |n| > MAX_DIGITS {
          return OutOfRange;
        }
        if Arithmetic(n) == None {
          return BadDuration;
        }
        budget := Arithmetic(n).value * 3600;
      } else {
        return BadDuration;
      }
      if budget > MAX_SECONDS {
        return BadDuration;
      }
      if budget <= 0 {
        return BadDuration;
      }
    }
    return Budget(budget);
  }

  function Pow10(k: nat): nat {
    if k == 0 then 1 else 10 * Pow10(k - 1)
  }

  lemma {:induction false} DecimalValue(n: string)
    requires forall i | 0 <= i < |n| :: IsDigit(n[i])
    ensures Value(n, 10).Some? && Value(n, 10).value < Pow10(|n|)
  {
    if n != "" {
      DecimalValue(n[..|n| - 1]);
    }
  }

  /** Decimal digits without leading zeros. */
  function Digits(k: nat): string {
    if k < 10 then ["0123456789"[k]] else Digits(k / 10) + ["0123456789"[k % 10]]
  }

  lemma {:induction false} DigitsReadBack(k: nat)
    ensures AllDigits(Digits(k)) && Value(Digits(k), 10) == Some(k)
    ensures k > 0 ==> Digits(k)[0] != '0'
  {
    if k < 10 {
      assert Digits(k)[..0] == "";
    } else {
      DigitsReadBack(k / 10);
      var n := Digits(k);
      assert n[..|n| - 1] == Digits(k / 10);
    }
  }

  lemma {:induction false} SameDigits(n: string, k: nat)
    requires AllDigits(n) && n[0] != '0' && Value(n, 10) == Some(k)
    ensures n == Digits(k)
    decreases |n|
  {
    var m := n[..|n| - 1];
    if |n| == 1 {
      assert m == "";
    } else {
      DecimalValue(m);
      NoLeadingZeroPositive(m);
      SameDigits(m, Value(m, 10).value);
      assert k / 10 == Value(m, 10).value;
    }
  }

  lemma {:induction false} NoLeadingZeroPositive(n: string)
    requires AllDigits(n) && n[0] != '0'
    ensures Value(n, 10).Some? && Value(n, 10).value >= 1
  {
    DecimalValue(n);
    if |n| > 1 {
      NoLeadingZeroPositive(n[..|n| - 1]);
    } else {
      assert n[..0] == "";
    }
  }

  function UnitSeconds(u: char): Option<nat> {
    match u
    case 's' => Some(1)
    case 'm' => Some(60)
    case 'h' => Some(3600)
    case _ => None
  }

  /**
   * On durations without a leading zero, being worth w seconds is being the decimal digits of a positive count with a
   * suffix whose unit makes it w. So printing any count with its suffix parses back, and nothing else is accepted.
   */
  lemma WorthIffPrinted(d: string, w: nat)
    requires d != "" && d[0] != '0'
    ensures Worth(d) == Some(w) <==>
            exists k: nat, u: char ::
              k > 0 && d == Digits(k) + [u] && UnitSeconds(u).Some? && w == k * UnitSeconds(u).value
  {
    if Worth(d) == Some(w) {
      var k, u := WorthIsPrinted(d);
    }
    if k: nat, u: char :| k > 0 && d == Digits(k) + [u] && UnitSeconds(u).Some? && w == k * UnitSeconds(u).value {
      PrintedIsWorth(k, u);
    }
  }

  lemma WorthOfDigits(n: string, u: char, k: nat)
    requires AllDigits(n) && n[0] != '0' && Value(n, 10) == Some(k)
    ensures Worth(n + [u]) == if UnitSeconds(u).Some? then Some(k * UnitSeconds(u).value) else None
  {
    var d := n + [u];
    assert d[..|d| - 1] == n && d[|d| - 1] == u;
    assert Arithmetic(n) == Some(k);
  }

  lemma WorthIsPrinted(d: string) returns (k: nat, u: char)
    requires d != "" && d[0] != '0' && Worth(d).Some?
    ensures k > 0 && d == Digits(k) + [u] && UnitSeconds(u).Some? && Worth(d).value == k * UnitSeconds(u).value
  {
    var n := d[..|d| - 1];
    u := d[|d| - 1];
    assert d == n + [u] && n[0] == d[0];
    NoLeadingZeroPositive(n);
    k := Value(n, 10).value;
    WorthOfDigits(n, u, k);
    SameDigits(n, k);
  }

  /** Every positive count with a suffix is worth that many units. */
  lemma PrintedIsWorth(k: nat, u: char)
    requires k > 0 && UnitSeconds(u).Some?
    ensures Worth(Digits(k) + [u]) == Some(k * UnitSeconds(u).value)
  {
    DigitsReadBack(k);
    WorthOfDigits(Digits(k), u, k);
  }

  lemma {:induction false} OctalDigits(n: string)
    requires forall i | 0 <= i < |n| :: IsDigit(n[i])
    ensures Value(n, 8).Some? <==> forall i | 0 <= i < |n| :: n[i] <= '7'
    ensures Value(n, 10).Some?
    ensures Value(n, 8).Some? ==>
              Value(n, 8).value <= Value(n, 10).value
              && (Value(n, 8) == Value(n, 10) <==> Value(n, 10).value < 8)
  {
    DecimalValue(n);
    if n != "" {
      var m, c := n[..|n| - 1], n[|n| - 1];
      DecimalValue(m);
      OctalDigits(m);
      assert IsDigit(c) && (c <= '7' <==> (c - '0') as nat < 8);
      assert (forall i | 0 <= i < |n| :: n[i] <= '7') <==> (forall i | 0 <= i < |m| :: m[i] <= '7') && c <= '7' by {
        assert forall i | 0 <= i < |m| :: m[i] == n[i];
      }
    }
  }

  /**
   * What a leading zero does. Seconds are taken as written. Minutes and hours go through shell arithmetic, which reads
   * octal: they are refused exactly when a digit is above seven, and are worth less than the decimal reading exactly
   * when that reading is eight or more.
   */
  lemma LeadingZeroIsOctal(n: string, u: char)
    requires AllDigits(n) && n[0] == '0' && UnitSeconds(u).Some?
    ensures Value(n, 10).Some?
    ensures
      var decimal, w := Value(n, 10).value, Worth(n + [u]);
      if u == 's' then w == Some(decimal)
      else
        && (w.Some? <==> forall i | 0 <= i < |n| :: n[i] <= '7')
        && (w.Some? ==>
              && w.value <= decimal * UnitSeconds(u).value
              && (w.value == decimal * UnitSeconds(u).value <==> decimal < 8))
  {
    DecimalValue(n);
    OctalDigits(n);
    var d := n + [u];
    assert d[..|d| - 1] == n && d[|d| - 1] == u;
    assert Arithmetic(n) == Value(n, 8);
  }

  /** The three units in seconds, and the texts refused for their shape. */
  lemma UnitsInSeconds(k: nat, d: string)
    requires k > 0
    ensures Worth(Digits(k) + "s") == Some(k) && Worth(Digits(k) + "m") == Some(60 * k)
    ensures Worth(Digits(k) + "h") == Some(3600 * k)
    ensures d != "" && d[|d| - 1] !in "smh" ==> Worth(d) == None
    ensures d != "" && (exists c :: c in d[..|d| - 1] && c !in "0123456789") ==> Worth(d) == None
  {
    PrintedIsWorth(k, 's');
    PrintedIsWorth(k, 'm');
    PrintedIsWorth(k, 'h');
    if d != "" {
      assert forall c: char :: IsDigit(c) ==> c == "0123456789"[(c - '0') as int];
    }
  }

  // ----- the poll loop

  /**
   * How a run of the loop ends, with the number of the deciding poll; Polling when the given polls leave it running.
   * The loop with no timeout may poll forever, so its runs are described through their finite beginnings.
   */
  datatype WaitOutcome = Continue(poll: nat) | Failed(poll: nat) | TimedOut(poll: nat) | Polling {
    function ExitCode(): Option<int> {
      match this
      case Continue(_) => Some(0)
      case Failed(_) => Some(1)
      case TimedOut(_) => Some(124)
      case Polling => None
    }
  }

  const CODE_RESOLVED := 0
  const CODE_PENDING := 2

  /** Poll k leaves the loop running. */
  predicate GoesOn(budget: nat, start: int, codes: seq<int>, now: seq<int>, k: nat)
    requires k < |codes| == |now|
  {
    codes[k] == CODE_PENDING && (budget > 0 ==> now[k] - start < budget)
  }

  predicate IsOutcome(budget: nat, start: int, codes: seq<int>, now: seq<int>, r: WaitOutcome)
    requires |codes| == |now|
  {
    var n := if r.Polling? then |codes| else r.poll;
    && n <= |codes|
    && (forall k | 0 <= k < n :: GoesOn(budget, start, codes, now, k))
    && (!r.Polling? ==> n < |codes|)
    && (r.Continue? ==> codes[n] == CODE_RESOLVED)
    && (r.Failed? ==> codes[n] != CODE_RESOLVED && codes[n] != CODE_PENDING)
    && (r.TimedOut? ==> codes[n] == CODE_PENDING && budget > 0 && now[n] - start >= budget)
  }

  /** codes[k] is the exit status of poll k and now[k] the clock read after it. */
  method PollLoop(budget: nat, start: int, codes: seq<int>, now: seq<int>)
    returns (r: WaitOutcome, stdout: seq<string>, exit: Option<int>)
    requires |codes| == |now|
    ensures IsOutcome(budget, start, codes, now, r)
    ensures stdout == if r.Continue? then ["continue"] else []
    ensures exit == r.ExitCode()
  {
    var i := 0;
    while i < |codes|
      invariant i <= |codes|
      invariant forall k | 0 <= k < i :: GoesOn(budget, start, codes, now, k)
    {
      var code := codes[i];
      if code == CODE_RESOLVED {
        return Continue(i), ["continue"], Some(0);
      } else if code != CODE_PENDING {
        return Failed(i), [], Some(1);
      }
      if budget > 0 {
        var elapsed := now[i] - start;
        if elapsed >= budget {
          return TimedOut(i), [], Some(124);
        }
      }
      i := i + 1;
    }
    return Polling, [], None;
  }

  lemma OutcomeUnique(budget: nat, start: int, codes: seq<int>, now: seq<int>, r: WaitOutcome, q: WaitOutcome)
    requires |codes| == |now| && IsOutcome(budget, start, codes, now, r) && IsOutcome(budget, start, codes, now, q)
    ensures r == q
  {
    var n := if r.Polling? then |codes| else r.poll;
    var m := if q.Polling? then |codes| else q.poll;
    assert n < m ==> GoesOn(budget, start, codes, now, n);
    assert m < n ==> GoesOn(budget, start, codes, now, m);
  }

  /** Poll k settles nothing: it saw pending, and any budget is not yet spent. */
  predicate Undecided(budget: nat, start: int, codes: seq<int>, now: seq<int>, k: nat)
    requires k < |codes| == |now|
  {
    codes[k] == 2 && !(budget > 0 && now[k] - start >= budget)
  }

  /**
   * The exit statuses: the first poll that settles anything decides; 0 exactly when its status is 0, 124 exactly when
   * it is 2 with the budget spent, 1 exactly when it is anything else; none exactly when every poll goes on.
   */
  lemma ExitStatuses(budget: nat, start: int, codes: seq<int>, now: seq<int>, r: WaitOutcome)
    requires |codes| == |now| && IsOutcome(budget, start, codes, now, r)
    ensures r.ExitCode() == None <==> forall k | 0 <= k < |codes| :: Undecided(budget, start, codes, now, k)
    ensures r.ExitCode() != None ==>
              && r.poll < |codes|
              && (forall k | 0 <= k < r.poll :: Undecided(budget, start, codes, now, k))
              && !Undecided(budget, start, codes, now, r.poll)
              && r.ExitCode() == Some(if codes[r.poll] == 0 then 0 else if codes[r.poll] == 2 then 124 else 1)
  {
    var n := if r.Polling? then |codes| else r.poll;
    forall k | 0 <= k < n ensures Undecided(budget, start, codes, now, k) {
      assert GoesOn(budget, start, codes, now, k);
    }
    if !r.Polling? {
      assert !Undecided(budget, start, codes, now, r.poll);
    }
  }

  /** The clock is read after the first poll and every sleep advances it by at least a second. */
  predicate Ticks(start: int, now: seq<int>) {
    (now != [] ==> now[0] >= start) && forall k | 0 <= k < |now| - 1 :: now[k + 1] >= now[k] + 1
  }

  lemma {:induction false} ClockAdvances(start: int, now: seq<int>, k: nat)
    requires Ticks(start, now) && k < |now|
    ensures now[k] >= start + k
  {
    if k > 0 {
      ClockAdvances(start, now, k - 1);
    }
  }

  /**
   * With a timeout the loop is over after at most budget + 1 polls. It times out only when the budget has passed, and
   * only on a poll that saw pending.
   */
  lemma TimeoutIsBounded(budget: nat, start: int, codes: seq<int>, now: seq<int>, r: WaitOutcome)
    requires budget > 0 && |codes| == |now| && Ticks(start, now)
    requires IsOutcome(budget, start, codes, now, r)
    ensures |codes| > budget ==> !r.Polling? && r.poll <= budget
    ensures r.ExitCode() == Some(124) ==> codes[r.poll] == CODE_PENDING && now[r.poll] - start >= budget
    ensures r.ExitCode() == Some(124) ==> forall k | 0 <= k < r.poll :: now[k] - start < budget
  {
    if |codes| > budget {
      ClockAdvances(start, now, budget);
      assert !GoesOn(budget, start, codes, now, budget);
    }
    if r.TimedOut? {
      forall k | 0 <= k < r.poll ensures now[k] - start < budget {
        assert GoesOn(budget, start, codes, now, k);
      }
    }
  }
}
