/**
 * The shape shared by the metadata readers: a text's lines are handled one at
 * a time, each line yields a few key/value entries that overwrite what earlier
 * lines stored, and the first line whose handling throws ends the whole read.
 * The handler is a parameter, so what is proved here holds for every format.
 */
module LineRecords {
  import opened Wrappers

  /** The record built from `lines` in order, or the error of the first line that fails. */
  function Fold<K, V, E>(handler: string -> Result<map<K, V>, E>, lines: seq<string>): Result<map<K, V>, E>
    decreases |lines|
  {
    if |lines| == 0 then Success(map[])
    else
      match Fold(handler, lines[..|lines| - 1])
      case Failure(e) => Failure(e)
      case Success(rec) =>
        match handler(lines[|lines| - 1])
        case Failure(e) => Failure(e)
        case Success(entries) => Success(rec + entries)
  }

  /** One more line on a record that has not failed. */
  lemma FoldStep<K, V, E>(handler: string -> Result<map<K, V>, E>, lines: seq<string>, i: nat)
    requires i < |lines| && Fold(handler, lines[..i]).Success?
    ensures handler(lines[i]).Failure? ==> Fold(handler, lines[..i + 1]) == Failure(handler(lines[i]).error)
    ensures handler(lines[i]).Success? ==>
      Fold(handler, lines[..i + 1]) == Success(Fold(handler, lines[..i]).value + handler(lines[i]).value)
  {
    assert lines[..i + 1][..i] == lines[..i];
  }

  /** Once a prefix of the lines fails, the whole read fails the same way. */
  lemma {:induction false} FoldFailurePersists<K, V, E>(handler: string -> Result<map<K, V>, E>, lines: seq<string>, n: nat)
    requires n <= |lines| && Fold(handler, lines[..n]).Failure?
    ensures Fold(handler, lines) == Fold(handler, lines[..n])
    decreases |lines| - n
  {
    if n < |lines| {
      assert lines[..n + 1][..n] == lines[..n];
      FoldFailurePersists(handler, lines, n + 1);
    } else {
      assert lines[..n] == lines;
    }
  }

  /** The read succeeds exactly when every line does, and otherwise reports the first failing line's error. */
  lemma {:induction false} FoldOutcome<K, V, E>(handler: string -> Result<map<K, V>, E>, lines: seq<string>)
    ensures Fold(handler, lines).Success? <==> forall i :: 0 <= i < |lines| ==> handler(lines[i]).Success?
    ensures Fold(handler, lines).Failure? ==>
      exists i :: 0 <= i < |lines|
        && handler(lines[i]) == Failure(Fold(handler, lines).error)
        && forall j :: 0 <= j < i ==> handler(lines[j]).Success?
    decreases |lines|
  {
    if |lines| > 0 {
      var n := |lines| - 1;
      var init := lines[..n];
      FoldOutcome(handler, init);
      assert forall i :: 0 <= i < n ==> init[i] == lines[i];
      if Fold(handler, init).Failure? {
        var i :| 0 <= i < n && handler(init[i]) == Failure(Fold(handler, init).error)
          && forall j :: 0 <= j < i ==> handler(init[j]).Success?;
        assert handler(lines[i]) == Failure(Fold(handler, lines).error);
      } else if handler(lines[n]).Failure? {
        assert handler(lines[n]) == Failure(Fold(handler, lines).error);
      }
    }
  }

  /** Line `line` stores a value under key `k`. */
  predicate Writes<K, V, E>(handler: string -> Result<map<K, V>, E>, line: string, k: K)
  {
    handler(line).Success? && k in handler(line).value
  }

  /** A key is present exactly when some line writes it. */
  lemma {:induction false} FoldKeys<K, V, E>(handler: string -> Result<map<K, V>, E>, lines: seq<string>, k: K)
    requires Fold(handler, lines).Success?
    ensures k in Fold(handler, lines).value <==> exists i :: 0 <= i < |lines| && Writes(handler, lines[i], k)
    decreases |lines|
  {
    if |lines| > 0 {
      var n := |lines| - 1;
      var init := lines[..n];
      FoldKeys(handler, init, k);
      assert forall i :: 0 <= i < n ==> init[i] == lines[i];
      assert Fold(handler, lines).value == Fold(handler, init).value + handler(lines[n]).value;
    }
  }

  /** Last write wins: a present key holds what the last line that writes it wrote. */
  lemma {:induction false} FoldLastWrite<K, V, E>(handler: string -> Result<map<K, V>, E>, lines: seq<string>,
                                                  k: K, i: nat)
    requires Fold(handler, lines).Success?
    requires i < |lines| && Writes(handler, lines[i], k)
    requires forall j :: i < j < |lines| ==> !Writes(handler, lines[j], k)
    ensures k in Fold(handler, lines).value
    ensures Fold(handler, lines).value[k] == handler(lines[i]).value[k]
    decreases |lines|
  {
    var n := |lines| - 1;
    var init := lines[..n];
    assert Fold(handler, lines).value == Fold(handler, init).value + handler(lines[n]).value;
    if i < n {
      assert init[i] == lines[i];
      assert forall j :: i < j < n ==> init[j] == lines[j];
      FoldLastWrite(handler, init, k, i);
    }
  }
}
