/**
 * The `Args` token-list editor: reading and removing converter options in a
 * list of command-line tokens.
 *
 * Short options are written `-k value` (two tokens), long options `--key=value`
 * (one token). A regular-expression match of the source is modelled as string
 * equality: a token is a short flag when it is `-a` for an alias `a` of the
 * short list, and a long option when it is `--a=v` for an alias `a` of the long
 * list and a non-empty `v`. An absent alias list (`None` in the source) is the
 * empty sequence here: neither matches any token.
 */
module Args {
  import opened Options
  import opened Seqs

  /** `tok` is `-a` for some short alias `a`: the token after it is its value. */
  predicate IsShortFlag(tok: string, short: seq<string>) {
    exists i :: 0 <= i < |short| && tok == "-" + short[i]
  }

  /** `tok` is `--a=v` with a non-empty `v`. */
  predicate HasLongPrefix(tok: string, a: string) {
    |tok| > |a| + 3 && tok[..|a| + 3] == "--" + a + "="
  }

  /**
   * The value of `tok` read as a long option: the alternation of the source's
   * pattern tries the aliases left to right, so the first alias that fits
   * decides where the value starts.
   */
  function LongValue(tok: string, long: seq<string>): (r: Option<string>)
    ensures r.Some? <==> exists i :: 0 <= i < |long| && HasLongPrefix(tok, long[i])
    ensures r.Some? ==> exists i :: 0 <= i < |long| && HasLongPrefix(tok, long[i]) && r.value == tok[|long[i]| + 3..]
  {
    if long == [] then None
    else if HasLongPrefix(tok, long[0]) then Some(tok[|long[0]| + 3..])
    else
      var r := LongValue(tok, long[1..]);
      assert forall i :: 0 <= i < |long[1..]| ==> long[1..][i] == long[i + 1];
      assert forall i :: 1 <= i < |long| ==> long[i] == long[1..][i - 1];
      r
  }

  /** An alias is a plain word: it holds no `=`, so it cannot swallow part of a value. */
  predicate PlainAliases(long: seq<string>) {
    forall i | 0 <= i < |long| :: '=' !in long[i]
  }

  /** A fitting alias is spelled out from the third character of the token, followed by `=`. */
  lemma PrefixChars(tok: string, a: string)
    requires HasLongPrefix(tok, a)
    ensures tok[|a| + 2] == '='
    ensures forall k | 0 <= k < |a| :: tok[k + 2] == a[k]
  {
    assert tok[|a| + 2] == tok[..|a| + 3][|a| + 2];
    forall k | 0 <= k < |a| ensures tok[k + 2] == a[k] {
      assert tok[k + 2] == tok[..|a| + 3][k + 2];
    }
  }

  /** Two plain aliases that both fit the same token are the same alias. */
  lemma LongPrefixUnique(tok: string, a: string, b: string)
    requires '=' !in a && '=' !in b
    requires HasLongPrefix(tok, a) && HasLongPrefix(tok, b)
    ensures a == b
  {
    PrefixChars(tok, a);
    PrefixChars(tok, b);
    assert forall k | 0 <= k < |b| :: b[k] != '=';
    assert forall k | 0 <= k < |a| :: a[k] != '=';
    assert |a| == |b|;
    assert forall k | 0 <= k < |a| :: a[k] == b[k];
  }

  /** With plain aliases, the long option `--a=v` reads back as exactly `v`. */
  lemma LongValueOf(long: seq<string>, k: nat, v: string)
    requires PlainAliases(long)
    requires k < |long| && v != ""
    ensures LongValue("--" + long[k] + "=" + v, long) == Some(v)
  {
    var tok := "--" + long[k] + "=" + v;
    assert tok[..|long[k]| + 3] == "--" + long[k] + "=";
    assert HasLongPrefix(tok, long[k]);
    var r := LongValue(tok, long);
    var i :| 0 <= i < |long| && HasLongPrefix(tok, long[i]) && r.value == tok[|long[i]| + 3..];
    LongPrefixUnique(tok, long[i], long[k]);
    assert tok[|long[k]| + 3..] == v;
  }

  /** `tok` is an occurrence of the option: a short flag or a long `--a=v`. */
  predicate Matches(tok: string, short: seq<string>, long: seq<string>) {
    IsShortFlag(tok, short) || LongValue(tok, long).Some?
  }

  /**
   * The scan of `Args.get`; `pending` is the source's `value` flag: the
   * previous token was a short flag, so this token is returned as its value,
   * whatever it looks like.
   */
  function GetFrom(args: seq<string>, short: seq<string>, long: seq<string>, pending: bool): Option<string>
    decreases |args|
  {
    if args == [] then None
    else if pending then Some(args[0])
    else if IsShortFlag(args[0], short) then GetFrom(args[1..], short, long, true)
    else if LongValue(args[0], long).Some? then LongValue(args[0], long)
    else GetFrom(args[1..], short, long, false)
  }

  /** `Args.get`: the value of the first occurrence of the option. */
  function Get(args: seq<string>, short: seq<string>, long: seq<string>): Option<string> {
    GetFrom(args, short, long, false)
  }

  /** Token `i` is the leftmost occurrence of the option. */
  ghost predicate FirstMatch(args: seq<string>, i: int, short: seq<string>, long: seq<string>) {
    && 0 <= i < |args|
    && Matches(args[i], short, long)
    && forall j | 0 <= j < i :: !Matches(args[j], short, long)
  }

  /** The value an occurrence at `i` carries: the next token for a short flag
      (none when it is the last token), the text after `=` for a long option. */
  ghost function ValueAt(args: seq<string>, i: int, short: seq<string>, long: seq<string>): Option<string>
    requires 0 <= i < |args|
  {
    if IsShortFlag(args[i], short) then
      if i + 1 < |args| then Some(args[i + 1]) else None
    else LongValue(args[i], long)
  }

  /** `get` returns the value of the leftmost occurrence, and None when there is none. */
  lemma {:induction false} GetFirstMatch(args: seq<string>, short: seq<string>, long: seq<string>)
    ensures (forall j | 0 <= j < |args| :: !Matches(args[j], short, long)) ==> Get(args, short, long) == None
    ensures forall i | FirstMatch(args, i, short, long) :: Get(args, short, long) == ValueAt(args, i, short, long)
  {
    if args == [] {
    } else if Matches(args[0], short, long) {
      forall i | FirstMatch(args, i, short, long)
        ensures Get(args, short, long) == ValueAt(args, i, short, long)
      {
        assert i == 0;
        if IsShortFlag(args[0], short) {
          assert Get(args, short, long) == GetFrom(args[1..], short, long, true);
        } else {
          assert Get(args, short, long) == LongValue(args[0], long);
        }
      }
    } else {
      var rest := args[1..];
      GetFirstMatch(rest, short, long);
      assert Get(args, short, long) == Get(rest, short, long);
      if forall j | 0 <= j < |args| :: !Matches(args[j], short, long) {
        assert forall j | 0 <= j < |rest| :: !Matches(rest[j], short, long) by {
          forall j | 0 <= j < |rest| ensures !Matches(rest[j], short, long) {
            assert rest[j] == args[j + 1];
          }
        }
      }
      forall i | FirstMatch(args, i, short, long)
        ensures Get(args, short, long) == ValueAt(args, i, short, long)
      {
        assert i > 0;
        assert FirstMatch(rest, i - 1, short, long) by {
          forall j | 0 <= j < i - 1 ensures !Matches(rest[j], short, long) {
            assert rest[j] == args[j + 1];
          }
        }
        assert ValueAt(rest, i - 1, short, long) == ValueAt(args, i, short, long);
      }
    }
  }

  /** The token after a leading short flag is its value, whatever it looks like. */
  lemma GetAfterFlag(flag: string, v: string, rest: seq<string>, short: seq<string>, long: seq<string>)
    requires IsShortFlag(flag, short)
    ensures Get([flag, v] + rest, short, long) == Some(v)
  {
    var args := [flag, v] + rest;
    assert args[0] == flag && args[1..] == [v] + rest;
    assert Get(args, short, long) == GetFrom([v] + rest, short, long, true);
  }

  /** Tokens after an occurrence do not change what `get` finds. */
  lemma {:induction false} GetAppend(a: seq<string>, b: seq<string>, short: seq<string>, long: seq<string>, pending: bool)
    requires GetFrom(a, short, long, pending).Some?
    ensures GetFrom(a + b, short, long, pending) == GetFrom(a, short, long, pending)
    decreases |a|
  {
    assert (a + b)[0] == a[0];
    if !pending && (IsShortFlag(a[0], short) || LongValue(a[0], long).None?) {
      assert (a + b)[1..] == a[1..] + b;
      GetAppend(a[1..], b, short, long, IsShortFlag(a[0], short));
    }
  }

  /** Tokens that are no occurrence can be skipped by `get`. */
  lemma {:induction false} GetSkipUnmatched(a: seq<string>, b: seq<string>, short: seq<string>, long: seq<string>)
    requires forall k | 0 <= k < |a| :: !Matches(a[k], short, long)
    ensures Get(a + b, short, long) == Get(b, short, long)
    decreases |a|
  {
    if a != [] {
      assert (a + b)[0] == a[0];
      assert (a + b)[1..] == a[1..] + b;
      assert !IsShortFlag(a[0], short) && LongValue(a[0], long).None?;
      assert Get(a + b, short, long) == Get(a[1..] + b, short, long);
      assert forall k | 0 <= k < |a[1..]| :: a[1..][k] == a[k + 1];
      GetSkipUnmatched(a[1..], b, short, long);
    } else {
      assert a + b == b;
    }
  }

  /**
   * The scan of `Args.remove`. In the pending state the token is the value of
   * the short flag just dropped: it is kept only when a `values` filter is
   * given and does not list it. Short flags and long options are dropped
   * (long options whatever their value); every other token is kept.
   */
  function RemoveFrom(args: seq<string>, short: seq<string>, long: seq<string>,
                      values: Option<seq<string>>, pending: bool): (r: seq<string>)
    ensures IsSubsequence(r, args) && |r| <= |args|
    ensures values.None? ==> forall k | 0 <= k < |r| :: !Matches(r[k], short, long)
    decreases |args|
  {
    if args == [] then []
    else if pending then
      if values.Some? && args[0] !in values.value then [args[0]] + RemoveFrom(args[1..], short, long, values, false)
      else RemoveFrom(args[1..], short, long, values, false)
    else if IsShortFlag(args[0], short) then RemoveFrom(args[1..], short, long, values, true)
    else if LongValue(args[0], long).Some? then RemoveFrom(args[1..], short, long, values, false)
    else [args[0]] + RemoveFrom(args[1..], short, long, values, false)
  }

  /**
   * `Args.remove`: a fresh list, an in-order subsequence of `args`. Without a
   * `values` filter no occurrence of the option is left in it.
   */
  function Remove(args: seq<string>, short: seq<string>, long: seq<string>, values: Option<seq<string>>): (r: seq<string>)
    ensures IsSubsequence(r, args) && |r| <= |args|
    ensures values.None? ==> forall k | 0 <= k < |r| :: !Matches(r[k], short, long)
  {
    RemoveFrom(args, short, long, values, false)
  }

  /**
   * Token `i` is consumed as the value of the short flag before it. This reads
   * the tokens before `i` backwards instead of scanning forwards: a flag's
   * value is never itself a flag.
   */
  ghost predicate IsValuePosition(args: seq<string>, short: seq<string>, i: nat)
    requires i <= |args|
    decreases i
  {
    i > 0 && IsShortFlag(args[i - 1], short) && !IsValuePosition(args, short, i - 1)
  }

  /** Whether `remove` keeps token `i`, decided from its position alone. */
  ghost predicate Kept(args: seq<string>, short: seq<string>, long: seq<string>, values: Option<seq<string>>, i: nat)
    requires i < |args|
  {
    if IsValuePosition(args, short, i) then values.Some? && args[i] !in values.value
    else !Matches(args[i], short, long)
  }

  /** The tokens from position `i` on that `Kept` selects, in order. */
  ghost function KeptFrom(args: seq<string>, short: seq<string>, long: seq<string>, values: Option<seq<string>>, i: nat): seq<string>
    requires i <= |args|
    decreases |args| - i
  {
    if i == |args| then []
    else (if Kept(args, short, long, values, i) then [args[i]] else []) + KeptFrom(args, short, long, values, i + 1)
  }

  lemma {:induction false} RemoveSuffix(args: seq<string>, short: seq<string>, long: seq<string>, values: Option<seq<string>>, i: nat)
    requires i <= |args|
    ensures RemoveFrom(args[i..], short, long, values, IsValuePosition(args, short, i)) == KeptFrom(args, short, long, values, i)
    decreases |args| - i
  {
    if i < |args| {
      RemoveSuffix(args, short, long, values, i + 1);
      assert args[i..][0] == args[i];
      assert args[i..][1..] == args[i + 1..];
    }
  }

  /**
   * `remove` keeps exactly the tokens that are no occurrence and not a flag's
   * value, plus, under a `values` filter, the flag values the filter does not
   * list.
   */
  lemma RemoveKeepsExactly(args: seq<string>, short: seq<string>, long: seq<string>, values: Option<seq<string>>)
    ensures Remove(args, short, long, values) == KeptFrom(args, short, long, values, 0)
  {
    RemoveSuffix(args, short, long, values, 0);
  }

  /** After removing without a filter, `get` finds nothing. */
  lemma RemoveThenGetNone(args: seq<string>, short: seq<string>, long: seq<string>)
    ensures Get(Remove(args, short, long, None), short, long) == None
  {
    GetFirstMatch(Remove(args, short, long, None), short, long);
  }

  /** No short flag's value is itself an occurrence of the option. */
  ghost predicate WellFormed(args: seq<string>, short: seq<string>, long: seq<string>) {
    forall i | 0 <= i < |args| && IsValuePosition(args, short, i) :: !Matches(args[i], short, long)
  }

  lemma {:induction false} KeptFromUnmatched(args: seq<string>, short: seq<string>, long: seq<string>, values: Option<seq<string>>, i: nat)
    requires i <= |args| && WellFormed(args, short, long)
    ensures forall k | 0 <= k < |KeptFrom(args, short, long, values, i)| :: !Matches(KeptFrom(args, short, long, values, i)[k], short, long)
    decreases |args| - i
  {
    if i < |args| {
      KeptFromUnmatched(args, short, long, values, i + 1);
    }
  }

  /**
   * With a `values` filter, a well-formed list loses every flag and every long
   * option, so `get` on the result finds nothing.
   */
  lemma RemoveFilteredThenGetNone(args: seq<string>, short: seq<string>, long: seq<string>, values: Option<seq<string>>)
    requires WellFormed(args, short, long)
    ensures forall k | 0 <= k < |Remove(args, short, long, values)| :: !Matches(Remove(args, short, long, values)[k], short, long)
    ensures Get(Remove(args, short, long, values), short, long) == None
  {
    RemoveKeepsExactly(args, short, long, values);
    KeptFromUnmatched(args, short, long, values, 0);
    GetFirstMatch(Remove(args, short, long, values), short, long);
  }

  /** Tokens that are no occurrence pass through `remove` untouched. */
  lemma {:induction false} RemoveSkipUnmatched(a: seq<string>, b: seq<string>, short: seq<string>, long: seq<string>, values: Option<seq<string>>)
    requires forall k | 0 <= k < |a| :: !Matches(a[k], short, long)
    ensures Remove(a + b, short, long, values) == a + Remove(b, short, long, values)
    decreases |a|
  {
    if a != [] {
      assert (a + b)[0] == a[0];
      assert (a + b)[1..] == a[1..] + b;
      assert !IsShortFlag(a[0], short) && LongValue(a[0], long).None?;
      assert Remove(a + b, short, long, values) == [a[0]] + Remove(a[1..] + b, short, long, values);
      assert forall k | 0 <= k < |a[1..]| :: a[1..][k] == a[k + 1];
      RemoveSkipUnmatched(a[1..], b, short, long, values);
      assert a == [a[0]] + a[1..];
    } else {
      assert a + b == b;
    }
  }

  /** A list without any occurrence is returned unchanged. */
  lemma RemoveUnmatched(args: seq<string>, short: seq<string>, long: seq<string>, values: Option<seq<string>>)
    requires forall k | 0 <= k < |args| :: !Matches(args[k], short, long)
    ensures Remove(args, short, long, values) == args
  {
    RemoveSkipUnmatched(args, [], short, long, values);
    assert args + [] == args;
  }

  /**
   * Removing a flag appended with its value restores the list: the flag goes,
   * and its value goes too unless a filter is given that does not list it.
   */
  lemma RemoveAppendedFlag(a: seq<string>, flag: string, x: string, short: seq<string>, long: seq<string>, values: Option<seq<string>>)
    requires forall k | 0 <= k < |a| :: !Matches(a[k], short, long)
    requires IsShortFlag(flag, short)
    ensures Remove(a + [flag, x], short, long, values)
         == a + (if values.Some? && x !in values.value then [x] else [])
  {
    RemoveSkipUnmatched(a, [flag, x], short, long, values);
    assert [flag, x][1..] == [x];
    assert Remove([flag, x], short, long, values) == RemoveFrom([x], short, long, values, true);
    assert [x][1..] == [];
  }

  /** The add-then-remove cycle for an output path: `remove(L + ['-o', x], short=['o'])` is `L`. */
  lemma RemoveOutputPair(a: seq<string>, x: string)
    requires forall k | 0 <= k < |a| :: a[k] != "-o"
    ensures Remove(a + ["-o", x], ["o"], [], None) == a
  {
    assert forall k | 0 <= k < |a| :: !Matches(a[k], ["o"], []);
    assert "-o" == "-" + ["o"][0];
    RemoveAppendedFlag(a, "-o", x, ["o"], [], None);
  }

  /** Worked cases of the source's behaviour, including the ones that surprise. */
  lemma Examples()
    ensures Get(["-f", "markdown", "-t", "html"], ["f"], []) == Some("markdown")
    ensures Get(["--to=html"], [], ["to"]) == Some("html")
    ensures Get(["-t", "-o", "x"], ["t", "w"], ["to", "write"]) == Some("-o")
    ensures Get(["-s", "-t"], ["t", "w"], ["to", "write"]) == None
    ensures Remove(["-t", "html"], ["t", "w"], ["to", "write"], Some(["pdf"])) == ["html"]
    ensures Remove(["-t", "pdf", "--to=html", "-s"], ["t", "w"], ["to", "write"], Some(["pdf"])) == ["-s"]
  {
    assert "-t" == "-" + ["t", "w"][0];
    assert "-f" == "-" + ["f"][0];
    assert !IsShortFlag("-s", ["t", "w"]) by {
      assert "-s" != "-" + ["t", "w"][0] && "-s" != "-" + ["t", "w"][1];
    }
    assert !IsShortFlag("-o", ["t", "w"]) by {
      assert "-o" != "-" + ["t", "w"][0] && "-o" != "-" + ["t", "w"][1];
    }
    assert !IsShortFlag("--to=html", []);
    assert !IsShortFlag("--to=html", ["t", "w"]) by {
      assert "--to=html" != "-" + ["t", "w"][0] && "--to=html" != "-" + ["t", "w"][1];
    }
    assert HasLongPrefix("--to=html", "to");
    assert LongValue("--to=html", ["to", "write"]) == Some("html");
    assert LongValue("--to=html", ["to"]) == Some("html");
    assert !HasLongPrefix("-s", "to") && !HasLongPrefix("-s", "write");
    assert LongValue("-s", ["to", "write"]) == None;
  }
}
