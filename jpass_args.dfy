/**
 * JPass.parseArgs: the command line as flag/value pairs. An argument "-k"
 * whose k is the configuration-location key or "jpassfile" maps k to the
 * argument after it; everything else is skipped.
 */
module CommandLine {
  import opened Wrappers

  const JPassFile: string := "jpassfile"

  /** arg is "-" followed by k. */
  predicate IsFlagFor(arg: string, k: string) {
    |arg| >= 1 && arg[0] == '-' && arg[1..] == k
  }

  /** arg is one of the two flags parseArgs reads a value for. */
  predicate IsRecognized(arg: string, confLocKey: string) {
    IsFlagFor(arg, confLocKey) || IsFlagFor(arg, JPassFile)
  }

  /**
   * Among the first n arguments no recognised flag is the last argument, so
   * args[i + 1] exists wherever the loop reads it before position n.
   */
  predicate ValuesPresent(args: seq<string>, confLocKey: string, n: nat) {
    forall i :: 0 <= i < n && i < |args| && IsRecognized(args[i], confLocKey) ==> i + 1 < |args|
  }

  /** The map parseArgs has built after looking at the first n arguments. */
  function ArgsMap(args: seq<string>, confLocKey: string, n: nat): (m: map<string, string>)
    requires n <= |args| && ValuesPresent(args, confLocKey, n)
    ensures m.Keys <= {confLocKey, JPassFile}
  {
    if n == 0 then map[]
    else
      var m := ArgsMap(args, confLocKey, n - 1);
      var a := args[n - 1];
      if IsRecognized(a, confLocKey) then m[a[1..] := args[n]] else m
  }

  /**
   * The loop of parseArgs. A recognised flag in last position makes the source
   * read past the end of the array and throw; that outcome is None here.
   */
  method ParseArgs(args: seq<string>, confLocKey: string) returns (res: Option<map<string, string>>)
    ensures res.None? <==> !ValuesPresent(args, confLocKey, |args|)
    ensures res.Some? ==> res.value == ArgsMap(args, confLocKey, |args|)
  {
    var m: map<string, string> := map[];
    for i := 0 to |args|
      invariant ValuesPresent(args, confLocKey, i)
      invariant m == ArgsMap(args, confLocKey, i)
    {
      if !(|args[i]| >= 1 && args[i][0] == '-') {
        continue;
      }
      var k := args[i][1..];
      if k == confLocKey || k == JPassFile {
        if i + 1 == |args| {
          assert IsRecognized(args[i], confLocKey);
          return None;
        }
        m := m[k := args[i + 1]];
      }
    }
    return Some(m);
  }

  /** A key is in the result exactly when it is one of the two and its flag occurs. */
  lemma {:induction false} ArgsMapHasKey(args: seq<string>, confLocKey: string, n: nat, k: string)
    requires n <= |args| && ValuesPresent(args, confLocKey, n)
    ensures k in ArgsMap(args, confLocKey, n) <==>
      (k == confLocKey || k == JPassFile) && exists j :: 0 <= j < n && IsFlagFor(args[j], k)
  {
    if n > 0 {
      ArgsMapHasKey(args, confLocKey, n - 1, k);
      if IsFlagFor(args[n - 1], k) && (k == confLocKey || k == JPassFile) {
        assert IsRecognized(args[n - 1], confLocKey);
      }
    }
  }

  /** The value of a key comes from the last occurrence of its flag. */
  lemma {:induction false} ArgsMapLastWins(args: seq<string>, confLocKey: string, n: nat, k: string, j: nat)
    requires n <= |args| && ValuesPresent(args, confLocKey, n)
    requires k == confLocKey || k == JPassFile
    requires j < n && IsFlagFor(args[j], k)
    requires forall j' :: j < j' < n ==> !IsFlagFor(args[j'], k)
    ensures k in ArgsMap(args, confLocKey, n) && ArgsMap(args, confLocKey, n)[k] == args[j + 1]
  {
    if j < n - 1 {
      ArgsMapLastWins(args, confLocKey, n - 1, k, j);
      assert !IsFlagFor(args[n - 1], k);
    }
  }

  /** A flag's value is examined in turn: "-jpassfile -jpassfile x" ends with "x". */
  lemma FlagValueIsAlsoParsed(confLocKey: string)
    ensures ArgsMap(["-jpassfile", "-jpassfile", "x"], confLocKey, 3) == map[JPassFile := "x"]
  {
    var args := ["-jpassfile", "-jpassfile", "x"];
    assert args[0][1..] == JPassFile && args[1][1..] == JPassFile;
    assert IsRecognized(args[0], confLocKey) && IsRecognized(args[1], confLocKey);
    assert !IsRecognized(args[2], confLocKey);
    assert ArgsMap(args, confLocKey, 1) == map[JPassFile := "-jpassfile"];
    assert ArgsMap(args, confLocKey, 2) == map[JPassFile := "x"];
  }
}
