/**
 * The command-line arguments of the frame extractor: every argument is
 * split on '=' and the pieces become a dictionary, key = the text before
 * the first '=', value = the text between the first and the second '='.
 */
module Arguments {
  import opened Wrappers

  /** The index of the first `c` in `s`, or |s| when there is none. */
  function IndexOf(s: string, c: char): (i: nat)
    ensures i <= |s|
    ensures i < |s| <==> c in s
    ensures i < |s| ==> s[i] == c
    ensures c !in s[..i]
  {
    if |s| == 0 then 0
    else if s[0] == c then 0
    else
      assert s[1..][..IndexOf(s[1..], c)] == s[1..1 + IndexOf(s[1..], c)];
      1 + IndexOf(s[1..], c)
  }

  /** String.Split with a one-character separator and no options: every piece, empty ones included. */
  function Split(s: string, sep: char): (parts: seq<string>)
    ensures |parts| >= 1
    decreases |s|
  {
    if sep !in s then [s]
    else
      var i := IndexOf(s, sep);
      [s[..i]] + Split(s[i + 1..], sep)
  }

  /** The inverse of Split: the pieces glued back with the separator. */
  function Join(parts: seq<string>, sep: char): (s: string)
    requires |parts| >= 1
  {
    if |parts| == 1 then parts[0] else parts[0] + [sep] + Join(parts[1..], sep)
  }

  /** Split loses nothing: joining its pieces gives the string back, and no piece holds the separator. */
  lemma {:induction false} SplitJoin(s: string, sep: char)
    ensures Join(Split(s, sep), sep) == s
    ensures forall k :: 0 <= k < |Split(s, sep)| ==> sep !in Split(s, sep)[k]
    decreases |s|
  {
    if sep in s {
      var i := IndexOf(s, sep);
      var rest := s[i + 1..];
      SplitJoin(rest, sep);
      assert Split(s, sep) == [s[..i]] + Split(rest, sep);
      assert Split(s, sep)[1..] == Split(rest, sep);
      assert s == s[..i] + [sep] + rest;
      forall k | 0 <= k < |Split(s, sep)|
        ensures sep !in Split(s, sep)[k]
      {
        if k > 0 {
          assert Split(s, sep)[k] == Split(rest, sep)[k - 1];
        }
      }
    }
  }

  /** The exceptions the argument dictionary can raise. */
  datatype ArgError =
    | IndexOutOfRange(argument: string)  // an argument without '=' has no item[1]
    | DuplicateKey(key: string)          // ToDictionary meets a key a second time

  /** The key of one argument: item[0] of its split, the text before the first '='. */
  function Key(arg: string): (k: string)
    ensures k == arg[..IndexOf(arg, '=')]
  {
    Split(arg, '=')[0]
  }

  /** One argument as a (key, value) pair: item[0] and item[1] of its split. */
  function ParseArgument(arg: string): (r: Result<(string, string), ArgError>)
    ensures r.Failure? <==> '=' !in arg
    ensures r.Failure? ==> r.error == IndexOutOfRange(arg)
    ensures r.Success? ==>
      var i := IndexOf(arg, '=');
      var rest := arg[i + 1..];
      r.value == (arg[..i], rest[..IndexOf(rest, '=')]) && r.value.0 == Key(arg)
    ensures r.Success? ==> '=' !in r.value.0 && '=' !in r.value.1
  {
    var parts := Split(arg, '=');
    if |parts| < 2 then Failure(IndexOutOfRange(arg))
    else
      var rest := arg[IndexOf(arg, '=') + 1..];
      assert parts[1] == Split(rest, '=')[0] == Key(rest);
      Success((parts[0], parts[1]))
  }

  /**
   * args.Select(Split).ToDictionary(item[0], item[1]): arguments are taken
   * in order; the first one without '=' or with a key already seen raises.
   */
  function ParseArguments(args: seq<string>): (r: Result<map<string, string>, ArgError>)
    ensures r.Failure? && r.error.IndexOutOfRange? ==> r.error.argument in args && '=' !in r.error.argument
    ensures r.Failure? && r.error.DuplicateKey? ==>
      exists i, j :: 0 <= i < j < |args| && Key(args[i]) == r.error.key && Key(args[j]) == r.error.key
    ensures r.Success? ==> r.value.Keys == set i | 0 <= i < |args| :: Key(args[i])
  {
    if |args| == 0 then Success(map[])
    else
      var init, last := args[..|args| - 1], args[|args| - 1];
      match ParseArguments(init)
      case Failure(e) =>
        assert forall i :: 0 <= i < |init| ==> init[i] == args[i];
        Failure(e)
      case Success(m) =>
        match ParseArgument(last)
        case Failure(e) => Failure(e)
        case Success(kv) =>
          if kv.0 in m then
            var i :| 0 <= i < |init| && Key(init[i]) == kv.0;
            assert Key(args[i]) == kv.0 && Key(args[|args| - 1]) == kv.0;
            Failure(DuplicateKey(kv.0))
          else
            KeysOfLast(args, init, last);
            Success(m[kv.0 := kv.1])
  }

  /** The keys of a list of arguments: those of all but the last one, plus the last one's. */
  lemma KeysOfLast(args: seq<string>, init: seq<string>, last: string)
    requires args == init + [last]
    ensures (set i | 0 <= i < |args| :: Key(args[i])) == (set i | 0 <= i < |init| :: Key(init[i])) + {Key(last)}
  {
    var all := set i | 0 <= i < |args| :: Key(args[i]);
    var before := set i | 0 <= i < |init| :: Key(init[i]);
    forall k | k in all
      ensures k in before + {Key(last)}
    {
      var i :| 0 <= i < |args| && Key(args[i]) == k;
      if i < |init| {
        assert Key(init[i]) == k;
      }
    }
    forall k | k in before + {Key(last)}
      ensures k in all
    {
      if k == Key(last) {
        assert Key(args[|init|]) == k;
      } else {
        var i :| 0 <= i < |init| && Key(init[i]) == k;
        assert Key(args[i]) == k;
      }
    }
  }

  /** No argument lacks '=' and no two arguments share a key. */
  ghost predicate WellFormedArguments(args: seq<string>)
  {
    && (forall i :: 0 <= i < |args| ==> '=' in args[i])
    && (forall i, j :: 0 <= i < j < |args| ==> Key(args[i]) != Key(args[j]))
  }

  /** The dictionary is built exactly when every argument has an '=' and the keys are distinct. */
  lemma {:induction false} ParseArgumentsSucceeds(args: seq<string>)
    ensures ParseArguments(args).Success? <==> WellFormedArguments(args)
  {
    if |args| > 0 {
      var init, last := args[..|args| - 1], args[|args| - 1];
      ParseArgumentsSucceeds(init);
      assert forall i :: 0 <= i < |init| ==> init[i] == args[i];
      if WellFormedArguments(args) {
        assert WellFormedArguments(init);
        var m := ParseArguments(init).value;
        assert forall i :: 0 <= i < |init| ==> Key(init[i]) != Key(last);
        assert Key(last) !in m;
      }
      if ParseArguments(args).Success? {
        var m := ParseArguments(init).value;
        assert WellFormedArguments(init);
        forall i | 0 <= i < |args|
          ensures '=' in args[i]
        {
          if i < |args| - 1 {
            assert '=' in init[i];
          }
        }
        forall i, j | 0 <= i < j < |args|
          ensures Key(args[i]) != Key(args[j])
        {
          if j == |args| - 1 {
            assert Key(init[i]) in m;
          } else {
            assert Key(init[i]) != Key(init[j]);
          }
        }
      }
    }
  }

  /** A built dictionary maps every argument's key to that argument's value. */
  lemma {:induction false} ParseArgumentsValues(args: seq<string>, i: int)
    requires ParseArguments(args).Success? && 0 <= i < |args|
    ensures '=' in args[i]
    ensures ParseArguments(args).value[Key(args[i])] == ParseArgument(args[i]).value.1
  {
    var init, last := args[..|args| - 1], args[|args| - 1];
    ParseArgumentsSucceeds(args);
    if i < |args| - 1 {
      assert init[i] == args[i];
      ParseArgumentsValues(init, i);
      assert Key(args[i]) != Key(last);
    }
  }
}
