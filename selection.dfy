/**
 * The numbered menus of the tool: a 1-based choice is accepted only when it
 * lies in 1..len (hackwifi.py:155, 318, 344), and `select_targets` turns a
 * comma-separated line into the registry entries it names (hackwifi.py:263-265).
 * Python's `int()` on a string is a parameter: `parseInt(s)` is `Some(n)` when
 * `int(s)` returns `n` and `None` when it raises `ValueError`.
 */
module Selection {
  import opened Wrappers
  import opened Text

  /**
   * How an interactive prompt loop ends: with the item chosen on reply `at`,
   * given up on reply `at`, at once because there is nothing to choose from,
   * or with the input running out (where Python's `input()` raises `EOFError`).
   */
  datatype Answer<T> = Chosen(value: T, at: nat) | Abandoned(at: nat) | NoChoices | EndOfInput

  /** A menu number names an item of a `len`-item menu. */
  predicate InRange(len: nat, n: int) {
    1 <= n <= len
  }

  /** A parsed reply names an item of a `len`-item menu. */
  predicate Accepts(len: nat, choice: Option<int>) {
    choice.Some? && InRange(len, choice.value)
  }

  /** The item a parsed reply names, if it names one. */
  function Pick<T>(items: seq<T>, choice: Option<int>): Option<T> {
    if Accepts(|items|, choice) then Some(items[choice.value - 1]) else None
  }

  /** The stripped pieces that are not empty (`c.strip()` for `c` with `if c.strip()`). */
  function NonBlank(pieces: seq<string>): (r: seq<string>)
    ensures |r| <= |pieces|
    ensures forall k :: 0 <= k < |r| ==> r[k] != []
    ensures forall p :: p in pieces && Strip(p) != [] ==> Strip(p) in r
  {
    if pieces == [] then []
    else
      var rest := NonBlank(pieces[1..]);
      assert forall p :: p in pieces[1..] ==> p in pieces;
      if Strip(pieces[0]) == [] then rest else [Strip(pieces[0])] + rest
  }

  /** A piece contributes its stripped text, or nothing when that is empty. */
  lemma NonBlankSingle(p: string)
    ensures NonBlank([p]) == if Strip(p) == [] then [] else [Strip(p)]
  {
    assert [p][1..] == [];
  }

  /** Pieces are kept in order, repeated pieces included: the filter distributes over concatenation. */
  lemma {:induction false} NonBlankAppend(xs: seq<string>, ys: seq<string>)
    ensures NonBlank(xs + ys) == NonBlank(xs) + NonBlank(ys)
    decreases |xs|
  {
    if xs == [] {
      assert xs + ys == ys;
    } else {
      assert (xs + ys)[0] == xs[0];
      assert (xs + ys)[1..] == xs[1..] + ys;
      NonBlankAppend(xs[1..], ys);
    }
  }

  /** Every result is the stripped text of some piece. */
  lemma {:induction false} NonBlankSound(pieces: seq<string>, k: int)
    requires 0 <= k < |NonBlank(pieces)|
    ensures exists p :: p in pieces && NonBlank(pieces)[k] == Strip(p)
    decreases |pieces|
  {
    var head := Strip(pieces[0]);
    var rest := NonBlank(pieces[1..]);
    if head != [] && k == 0 {
      assert NonBlank(pieces)[0] == head;
      assert pieces[0] in pieces;
    } else {
      var j := if head != [] then k - 1 else k;
      assert NonBlank(pieces) == (if head == [] then rest else [head] + rest);
      assert NonBlank(pieces)[k] == rest[j];
      NonBlankSound(pieces[1..], j);
      var p :| p in pieces[1..] && rest[j] == Strip(p);
      assert p in pieces;
    }
  }

  /** `[int(w) for w in words]`, or `None` as soon as one `int(w)` raises. */
  function ParseAll(words: seq<string>, parseInt: string -> Option<int>): (r: Option<seq<int>>)
    ensures r.Some? <==> forall i :: 0 <= i < |words| ==> parseInt(words[i]).Some?
    ensures r.Some? ==> |r.value| == |words|
    ensures r.Some? ==> forall i :: 0 <= i < |words| ==> r.value[i] == parseInt(words[i]).value
  {
    if words == [] then Some([])
    else
      match parseInt(words[0])
      case None => None
      case Some(n) =>
        match ParseAll(words[1..], parseInt)
        case None =>
          assert exists i :: 0 <= i < |words| - 1 && parseInt(words[1..][i]).None?;
          None
        case Some(ns) => Some([n] + ns)
  }

  /** The numbers typed on one line of the target prompt, `None` on `ValueError`. */
  function ParseChoices(line: string, parseInt: string -> Option<int>): Option<seq<int>> {
    ParseAll(NonBlank(Split(line, ',')), parseInt)
  }

  /**
   * `[items[n-1] for n in choices if 1 <= n <= len(items)]`: out-of-range numbers
   * are dropped, the order of the choices and repeated choices are kept.
   */
  function Targets<T>(items: seq<T>, choices: seq<int>): (r: seq<T>)
    ensures |r| <= |choices|
  {
    if choices == [] then []
    else
      var rest := Targets(items, choices[1..]);
      if InRange(|items|, choices[0]) then [items[choices[0] - 1]] + rest else rest
  }

  /** Every target is the item named by some in-range choice. */
  lemma {:induction false} TargetsNamed<T>(items: seq<T>, choices: seq<int>, k: int)
    requires 0 <= k < |Targets(items, choices)|
    ensures exists n :: n in choices && InRange(|items|, n) && Targets(items, choices)[k] == items[n - 1]
    decreases |choices|
  {
    var rest := Targets(items, choices[1..]);
    if InRange(|items|, choices[0]) && k == 0 {
      assert choices[0] in choices;
    } else {
      var j := if InRange(|items|, choices[0]) then k - 1 else k;
      TargetsNamed(items, choices[1..], j);
      var n :| n in choices[1..] && InRange(|items|, n) && rest[j] == items[n - 1];
      assert n in choices;
    }
  }

  /** What one line of the target prompt selects; `None` makes the prompt ask again. */
  function TargetsFrom<T>(items: seq<T>, line: string, parseInt: string -> Option<int>): Option<seq<T>> {
    match ParseChoices(line, parseInt)
    case None => None
    case Some(choices) =>
      var t := Targets(items, choices);
      if t == [] then None else Some(t)
  }

  /** Selection distributes over concatenation of the choices: the order is the input order. */
  lemma {:induction false} TargetsAppend<T>(items: seq<T>, xs: seq<int>, ys: seq<int>)
    ensures Targets(items, xs + ys) == Targets(items, xs) + Targets(items, ys)
    decreases |xs|
  {
    if xs == [] {
      assert xs + ys == ys;
    } else {
      assert (xs + ys)[0] == xs[0];
      assert (xs + ys)[1..] == xs[1..] + ys;
      TargetsAppend(items, xs[1..], ys);
    }
  }

  /** A single choice selects its item exactly when it is in range. */
  lemma TargetsSingle<T>(items: seq<T>, n: int)
    ensures Targets(items, [n]) == if InRange(|items|, n) then [items[n - 1]] else []
  {
    assert [n][1..] == [];
  }

  /** Nothing is selected exactly when no choice is in range. */
  lemma {:induction false} TargetsEmptyIff<T>(items: seq<T>, choices: seq<int>)
    ensures Targets(items, choices) == [] <==>
      forall i :: 0 <= i < |choices| ==> !InRange(|items|, choices[i])
    decreases |choices|
  {
    if choices != [] {
      TargetsEmptyIff(items, choices[1..]);
      assert forall i :: 1 <= i < |choices| ==> choices[i] == choices[1..][i - 1];
    }
  }

  /** An empty registry selects nothing, whatever is typed. */
  lemma TargetsOfEmptyList<T>(choices: seq<int>)
    ensures Targets<T>([], choices) == []
  {
    TargetsEmptyIff<T>([], choices);
  }

  /** When every choice is in range, the k-th target is the item numbered by the k-th choice. */
  lemma {:induction false} TargetsAllInRange<T>(items: seq<T>, choices: seq<int>)
    requires forall i :: 0 <= i < |choices| ==> InRange(|items|, choices[i])
    ensures |Targets(items, choices)| == |choices|
    ensures forall k :: 0 <= k < |choices| ==>
      1 <= choices[k] <= |items| && Targets(items, choices)[k] == items[choices[k] - 1]
    decreases |choices|
  {
    if choices != [] {
      var tail := choices[1..];
      assert forall i :: 0 <= i < |tail| ==> InRange(|items|, tail[i]) by {
        forall i | 0 <= i < |tail| ensures InRange(|items|, tail[i]) {
          assert tail[i] == choices[i + 1];
        }
      }
      TargetsAllInRange(items, tail);
      var r := Targets(items, choices);
      assert InRange(|items|, choices[0]);
      assert r == [items[choices[0] - 1]] + Targets(items, tail);
      forall k | 0 <= k < |choices|
        ensures 1 <= choices[k] <= |items| && r[k] == items[choices[k] - 1]
      {
        assert InRange(|items|, choices[k]);
        if k > 0 { assert choices[k] == tail[k - 1]; }
      }
    }
  }

  /** A line selects something exactly when it parses and names an in-range item. */
  lemma TargetsFromSome<T>(items: seq<T>, line: string, parseInt: string -> Option<int>)
    ensures TargetsFrom(items, line, parseInt).Some? <==>
      ParseChoices(line, parseInt).Some? &&
      exists i :: 0 <= i < |ParseChoices(line, parseInt).value| &&
        InRange(|items|, ParseChoices(line, parseInt).value[i])
    ensures TargetsFrom(items, line, parseInt).Some? ==> TargetsFrom(items, line, parseInt).value != []
  {
    match ParseChoices(line, parseInt)
    case None =>
    case Some(choices) => TargetsEmptyIff(items, choices);
  }
}
