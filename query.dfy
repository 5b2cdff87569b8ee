/**
 * Query.format: SQL template substitution. Each `?f` (field) or `?t` (table)
 * joker, read left to right, is replaced by the next argument, optionally
 * wrapped in backquotes; every other character is copied as it is.
 *
 * The arguments are given as the strings `StringBuffer.append(Object)` makes
 * of them, and the two quotation flags (read from system properties by the
 * engine) are parameters.
 */
module Queries {
  import opened Wrappers

  datatype FormatError =
    | MissingArgument   // a joker past the last argument: `args[index++]` is out of bounds
    | NotEnoughJokers   // arguments left over after the scan: IllegalArgumentException

  /** A `?f` or `?t` starts at the head of q. */
  predicate JokerAt(q: string)
  {
    |q| >= 2 && q[0] == '?' && (q[1] == 'f' || q[1] == 't')
  }

  /** An argument as it is appended: between backquotes when the joker's flag is set. */
  function Quoted(arg: string, quote: bool): string
  {
    if quote then "`" + arg + "`" else arg
  }

  /** Whether the joker at the head of q (a `?f` or a `?t`) is quoted. */
  function QuoteOf(q: string, fieldQuotation: bool, tableQuotation: bool): bool
    requires JokerAt(q)
  {
    if q[1] == 'f' then fieldQuotation else tableQuotation
  }

  /**
   * The scan of the template: the text produced and the arguments left over,
   * or MissingArgument at the first joker with no argument left.
   */
  function Subst(q: string, args: seq<string>, fieldQuotation: bool, tableQuotation: bool)
    : Result<(string, seq<string>), FormatError>
  {
    if q == [] then Success(([], args))
    else if JokerAt(q) then
      if args == [] then Failure(MissingArgument)
      else
        var rest :- Subst(q[2..], args[1..], fieldQuotation, tableQuotation);
        Success((Quoted(args[0], QuoteOf(q, fieldQuotation, tableQuotation)) + rest.0, rest.1))
    else
      var rest :- Subst(q[1..], args, fieldQuotation, tableQuotation);
      Success(([q[0]] + rest.0, rest.1))
  }

  /** The substituted template, or the error: every argument must be used by exactly one joker. */
  function Expand(q: string, args: seq<string>, fieldQuotation: bool, tableQuotation: bool)
    : Result<string, FormatError>
  {
    var r :- Subst(q, args, fieldQuotation, tableQuotation);
    if r.1 != [] then Failure(NotEnoughJokers) else Success(r.0)
  }

  /** The number of jokers in the template, counted the way the scan meets them (never overlapping). */
  function JokerCount(q: string): nat
  {
    if q == [] then 0
    else if JokerAt(q) then 1 + JokerCount(q[2..])
    else JokerCount(q[1..])
  }

  /** The number of jokers whose replacement gets backquotes under the given flags. */
  function QuotedCount(q: string, fieldQuotation: bool, tableQuotation: bool): nat
  {
    if q == [] then 0
    else if JokerAt(q) then
      (if QuoteOf(q, fieldQuotation, tableQuotation) then 1 else 0)
        + QuotedCount(q[2..], fieldQuotation, tableQuotation)
    else QuotedCount(q[1..], fieldQuotation, tableQuotation)
  }

  /** The total length of the arguments. */
  function TotalLength(args: seq<string>): nat
  {
    if args == [] then 0 else |args[0]| + TotalLength(args[1..])
  }

  /**
   * The scan fails exactly when the template has more jokers than arguments;
   * otherwise it uses one argument per joker, in order, and leaves the rest.
   */
  lemma {:induction false} SubstUsesOnePerJoker(q: string, args: seq<string>, fieldQuotation: bool, tableQuotation: bool)
    ensures Subst(q, args, fieldQuotation, tableQuotation).Failure? <==> JokerCount(q) > |args|
    ensures Subst(q, args, fieldQuotation, tableQuotation).Failure? ==>
              Subst(q, args, fieldQuotation, tableQuotation).error == MissingArgument
    ensures JokerCount(q) <= |args| ==> Subst(q, args, fieldQuotation, tableQuotation).value.1 == args[JokerCount(q)..]
  {
    if q == [] {
    } else if JokerAt(q) {
      if args != [] {
        SubstUsesOnePerJoker(q[2..], args[1..], fieldQuotation, tableQuotation);
        if JokerCount(q) <= |args| {
          assert args[1..][JokerCount(q[2..])..] == args[JokerCount(q)..];
        }
      }
    } else {
      SubstUsesOnePerJoker(q[1..], args, fieldQuotation, tableQuotation);
    }
  }

  /**
   * `format` succeeds exactly when there are as many arguments as jokers; with
   * fewer it fails on the first joker left without one, with more it fails
   * after the scan.
   */
  lemma ExpandSucceedsIffCountsMatch(q: string, args: seq<string>, fieldQuotation: bool, tableQuotation: bool)
    ensures Expand(q, args, fieldQuotation, tableQuotation).Success? <==> JokerCount(q) == |args|
    ensures JokerCount(q) > |args| ==> Expand(q, args, fieldQuotation, tableQuotation) == Failure(MissingArgument)
    ensures JokerCount(q) < |args| ==> Expand(q, args, fieldQuotation, tableQuotation) == Failure(NotEnoughJokers)
  {
    SubstUsesOnePerJoker(q, args, fieldQuotation, tableQuotation);
  }

  /** Without jokers the scan copies the template and uses no argument. */
  lemma {:induction false} SubstWithoutJokers(q: string, args: seq<string>, fieldQuotation: bool, tableQuotation: bool)
    requires JokerCount(q) == 0
    ensures Subst(q, args, fieldQuotation, tableQuotation) == Success((q, args))
  {
    if q != [] {
      assert !JokerAt(q);
      SubstWithoutJokers(q[1..], args, fieldQuotation, tableQuotation);
      assert [q[0]] + q[1..] == q;
    }
  }

  /** A template without jokers, given no arguments, comes back unchanged. */
  lemma NoJokersUnchanged(q: string, fieldQuotation: bool, tableQuotation: bool)
    requires JokerCount(q) == 0
    ensures Expand(q, [], fieldQuotation, tableQuotation) == Success(q)
  {
    SubstWithoutJokers(q, [], fieldQuotation, tableQuotation);
  }

  /**
   * The length of the scan's text: each joker's two characters give way to its
   * argument, plus two backquotes when that joker is quoted.
   */
  lemma {:induction false} SubstLength(q: string, args: seq<string>, fieldQuotation: bool, tableQuotation: bool)
    requires Subst(q, args, fieldQuotation, tableQuotation).Success?
    ensures var r := Subst(q, args, fieldQuotation, tableQuotation).value;
      |r.0| + 2 * JokerCount(q) + TotalLength(r.1)
        == |q| + TotalLength(args) + 2 * QuotedCount(q, fieldQuotation, tableQuotation)
  {
    if q == [] {
    } else if JokerAt(q) {
      SubstLength(q[2..], args[1..], fieldQuotation, tableQuotation);
    } else {
      SubstLength(q[1..], args, fieldQuotation, tableQuotation);
    }
  }

  /**
   * The length of a successful `format`. With both flags set (the older
   * `format`, which always quotes) every joker's two characters are traded
   * for two backquotes, so the result is exactly the arguments longer.
   */
  lemma ExpandLength(q: string, args: seq<string>, fieldQuotation: bool, tableQuotation: bool)
    requires Expand(q, args, fieldQuotation, tableQuotation).Success?
    ensures |Expand(q, args, fieldQuotation, tableQuotation).value| + 2 * JokerCount(q)
              == |q| + TotalLength(args) + 2 * QuotedCount(q, fieldQuotation, tableQuotation)
    ensures fieldQuotation && tableQuotation ==>
              |Expand(q, args, fieldQuotation, tableQuotation).value| == |q| + TotalLength(args)
  {
    SubstLength(q, args, fieldQuotation, tableQuotation);
    if fieldQuotation && tableQuotation {
      AllQuoted(q, fieldQuotation, tableQuotation);
    }
  }

  /** With both flags set every joker is quoted. */
  lemma {:induction false} AllQuoted(q: string, fieldQuotation: bool, tableQuotation: bool)
    requires fieldQuotation && tableQuotation
    ensures QuotedCount(q, fieldQuotation, tableQuotation) == JokerCount(q)
  {
    if q == [] {
    } else if JokerAt(q) {
      AllQuoted(q[2..], fieldQuotation, tableQuotation);
    } else {
      AllQuoted(q[1..], fieldQuotation, tableQuotation);
    }
  }

  /** Nothing produced yet. */
  lemma PrependedNothing(r: Result<(string, seq<string>), FormatError>)
    ensures Prepended([], r) == r
  {
    if r.Success? {
      assert [] + r.value.0 == r.value.0;
    }
  }

  /** One joker of the scan, taken at position i with argument index next. */
  lemma JokerStep(q: string, args: seq<string>, i: nat, next: nat, fieldQuotation: bool, tableQuotation: bool)
    requires i + 1 < |q| && next < |args| && JokerAt(q[i..])
    ensures Subst(q[i..], args[next..], fieldQuotation, tableQuotation)
      == Prepended(Quoted(args[next], QuoteOf(q[i..], fieldQuotation, tableQuotation)),
                   Subst(q[i + 2..], args[next + 1..], fieldQuotation, tableQuotation))
  {
    assert q[i..][2..] == q[i + 2..];
    assert args[next..][1..] == args[next + 1..];
  }

  /** One literal character of the scan, at position i. */
  lemma LiteralStep(q: string, args: seq<string>, i: nat, fieldQuotation: bool, tableQuotation: bool)
    requires i < |q| && !JokerAt(q[i..])
    ensures Subst(q[i..], args, fieldQuotation, tableQuotation)
      == Prepended([q[i]], Subst(q[i + 1..], args, fieldQuotation, tableQuotation))
  {
    assert q[i..][1..] == q[i + 1..];
  }

  /**
   * `format` as in the current tree: one pass over the template with the
   * argument index, quoting `?f` replacements when fieldQuotation is set and
   * `?t` replacements when tableQuotation is set.
   */
  method Format(query: string, args: seq<string>, fieldQuotation: bool, tableQuotation: bool)
    returns (r: Result<string, FormatError>)
    ensures r == Expand(query, args, fieldQuotation, tableQuotation)
  {
    var result: string := "";
    var index := 0;
    var i := 0;
    assert query[i..] == query && args[index..] == args;
    PrependedNothing(Subst(query, args, fieldQuotation, tableQuotation));
    while i < |query|
      invariant i <= |query| && index <= |args|
      invariant Subst(query, args, fieldQuotation, tableQuotation)
        == Prepended(result, Subst(query[i..], args[index..], fieldQuotation, tableQuotation))
    {
      if i + 1 < |query| && query[i] == '?' {
        if query[i + 1] == 'f' {
          assert JokerAt(query[i..]);
          if index >= |args| {
            assert args[index..] == [];
            return Failure(MissingArgument);
          }
          JokerStep(query, args, i, index, fieldQuotation, tableQuotation);
          PrependedTwice(result, Quoted(args[index], fieldQuotation),
                         Subst(query[i + 2..], args[index + 1..], fieldQuotation, tableQuotation));
          assert QuoteOf(query[i..], fieldQuotation, tableQuotation) == fieldQuotation;
          ghost var before := result;
          if fieldQuotation {
            result := result + "`";
          }
          result := result + args[index];
          if fieldQuotation {
            result := result + "`";
          }
          assert result == before + Quoted(args[index], fieldQuotation);
          index := index + 1;
          i := i + 2;
          continue;
        }
        if query[i + 1] == 't' {
          assert JokerAt(query[i..]);
          if index >= |args| {
            assert args[index..] == [];
            return Failure(MissingArgument);
          }
          JokerStep(query, args, i, index, fieldQuotation, tableQuotation);
          PrependedTwice(result, Quoted(args[index], tableQuotation),
                         Subst(query[i + 2..], args[index + 1..], fieldQuotation, tableQuotation));
          assert QuoteOf(query[i..], fieldQuotation, tableQuotation) == tableQuotation;
          ghost var before := result;
          if tableQuotation {
            result := result + "`";
          }
          result := result + args[index];
          if tableQuotation {
            result := result + "`";
          }
          assert result == before + Quoted(args[index], tableQuotation);
          index := index + 1;
          i := i + 2;
          continue;
        }
      }
      LiteralStep(query, args[index..], i, fieldQuotation, tableQuotation);
      PrependedTwice(result, [query[i]], Subst(query[i + 1..], args[index..], fieldQuotation, tableQuotation));
      result := result + [query[i]];
      i := i + 1;
    }
    assert query[i..] == [] && result + [] == result;
    if index != |args| {
      return Failure(NotEnoughJokers);
    }
    r := Success(result);
  }

  /**
   * `format` as in the older tree: the same pass, with every replacement
   * between backquotes whatever the joker.
   */
  method FormatAlwaysQuoted(query: string, args: seq<string>) returns (r: Result<string, FormatError>)
    ensures r == Expand(query, args, true, true)
  {
    var result: string := "";
    var index := 0;
    var i := 0;
    assert query[i..] == query && args[index..] == args;
    PrependedNothing(Subst(query, args, true, true));
    while i < |query|
      invariant i <= |query| && index <= |args|
      invariant Subst(query, args, true, true) == Prepended(result, Subst(query[i..], args[index..], true, true))
    {
      if i + 1 < |query| && query[i] == '?' {
        if query[i + 1] == 'f' || query[i + 1] == 't' {
          assert JokerAt(query[i..]);
          if index >= |args| {
            assert args[index..] == [];
            return Failure(MissingArgument);
          }
          JokerStep(query, args, i, index, true, true);
          PrependedTwice(result, Quoted(args[index], true), Subst(query[i + 2..], args[index + 1..], true, true));
          assert result + "`" + args[index] + "`" == result + Quoted(args[index], true);
          result := result + "`" + args[index] + "`";
          index := index + 1;
          i := i + 2;
          continue;
        }
      }
      LiteralStep(query, args[index..], i, true, true);
      PrependedTwice(result, [query[i]], Subst(query[i + 1..], args[index..], true, true));
      result := result + [query[i]];
      i := i + 1;
    }
    assert query[i..] == [] && result + [] == result;
    if index != |args| {
      return Failure(NotEnoughJokers);
    }
    r := Success(result);
  }
}
