/** `get_requirements` of setup.py: the lines of requirements.txt, each stripped
    of surrounding whitespace, without the first editable-install line `-e .`. */
module Requirements {
  import opened Text

  const EditableInstall: string := "-e ."

  /** Every line stripped as Python `str.strip()` does. */
  function StripAll(lines: seq<string>): (r: seq<string>)
    ensures |r| == |lines|
    ensures forall i :: 0 <= i < |lines| ==> r[i] == Strip(lines[i], PySpace)
  {
    seq(|lines|, i requires 0 <= i < |lines| => Strip(lines[i], PySpace))
  }

  /** Python `list.remove(x)` guarded by `x in list`: the first occurrence goes, if any. */
  function RemoveFirst(xs: seq<string>, x: string): (r: seq<string>)
    decreases |xs|
  {
    if xs == [] then []
    else if xs[0] == x then xs[1..]
    else [xs[0]] + RemoveFirst(xs[1..], x)
  }

  /** Index of the first occurrence of `x` in `xs`. */
  function FirstIndex(xs: seq<string>, x: string): (i: nat)
    requires x in xs
    ensures i < |xs| && xs[i] == x && x !in xs[..i]
    decreases |xs|
  {
    if xs[0] == x then 0 else 1 + FirstIndex(xs[1..], x)
  }

  /** An occurrence with none before it is the first one. */
  lemma {:induction false} FirstIndexUnique(xs: seq<string>, x: string, j: nat)
    requires j < |xs| && xs[j] == x && x !in xs[..j]
    ensures FirstIndex(xs, x) == j
    decreases j
  {
    if j > 0 {
      assert xs[..j][0] == xs[0];
      assert xs[1..][..j - 1] == xs[..j][1..];
      FirstIndexUnique(xs[1..], x, j - 1);
    }
  }

  /** Without an occurrence, removal changes nothing. */
  lemma {:induction false} RemoveFirstAbsent(xs: seq<string>, x: string)
    requires x !in xs
    ensures RemoveFirst(xs, x) == xs
    decreases |xs|
  {
    if xs != [] {
      assert x !in xs[1..];
      RemoveFirstAbsent(xs[1..], x);
    }
  }

  /** With an occurrence at `i` and none before it, removal cuts out exactly that one. */
  lemma {:induction false} RemoveFirstPresent(xs: seq<string>, x: string, i: nat)
    requires i < |xs| && xs[i] == x && x !in xs[..i]
    ensures RemoveFirst(xs, x) == xs[..i] + xs[i + 1..]
    decreases i
  {
    if i == 0 {
      assert xs[..0] == [];
    } else {
      var rest := xs[1..];
      assert xs[0] == xs[..i][0];
      assert rest[..i - 1] == xs[..i][1..];
      RemoveFirstPresent(rest, x, i - 1);
      calc {
        RemoveFirst(xs, x);
        [xs[0]] + RemoveFirst(rest, x);
        [xs[0]] + (rest[..i - 1] + rest[i..]);
        { assert xs[..i] == [xs[0]] + rest[..i - 1]; assert xs[i + 1..] == rest[i..]; }
        xs[..i] + xs[i + 1..];
      }
    }
  }

  /** Removal cuts out exactly the first occurrence, keeping the order of the rest;
      without an occurrence nothing changes. */
  lemma {:induction false} RemoveFirstShape(xs: seq<string>, x: string)
    ensures x !in xs ==> RemoveFirst(xs, x) == xs
    ensures x in xs ==> RemoveFirst(xs, x) == xs[..FirstIndex(xs, x)] + xs[FirstIndex(xs, x) + 1..]
  {
    if x in xs {
      RemoveFirstPresent(xs, x, FirstIndex(xs, x));
    } else {
      RemoveFirstAbsent(xs, x);
    }
  }

  /** Removal takes away one copy of `x` when present and nothing else. */
  lemma {:induction false} RemoveFirstMultiset(xs: seq<string>, x: string)
    ensures x in xs ==> multiset(RemoveFirst(xs, x)) == multiset(xs) - multiset{x}
    ensures x !in xs ==> multiset(RemoveFirst(xs, x)) == multiset(xs)
    ensures |RemoveFirst(xs, x)| == if x in xs then |xs| - 1 else |xs|
  {
    if x in xs {
      var i := FirstIndex(xs, x);
      RemoveFirstPresent(xs, x, i);
      var before, after := xs[..i], xs[i + 1..];
      assert xs == before + [x] + after;
      assert multiset(xs) == multiset(before) + multiset{x} + multiset(after);
    } else {
      RemoveFirstAbsent(xs, x);
    }
  }

  /** The loop of `get_requirements` over the lines: each entry of the list is
      replaced by its stripped form. */
  method StripInPlace(buffer: array<string>)
    modifies buffer
    ensures buffer[..] == StripAll(old(buffer[..]))
  {
    ghost var lines := buffer[..];
    for k := 0 to buffer.Length
      invariant forall i :: 0 <= i < k ==> buffer[i] == Strip(lines[i], PySpace)
      invariant forall i :: k <= i < buffer.Length ==> buffer[i] == lines[i]
    {
      buffer[k] := Strip(buffer[k], PySpace);
    }
  }

  /** The index `list.remove` looks for: the first `-e .`, or `|xs|` when there
      is none. */
  method FindEditableInstall(xs: seq<string>) returns (j: nat)
    ensures j <= |xs| && EditableInstall !in xs[..j]
    ensures j < |xs| ==> xs[j] == EditableInstall
  {
    j := 0;
    while j < |xs| && xs[j] != EditableInstall
      invariant j <= |xs|
      invariant EditableInstall !in xs[..j]
    {
      assert xs[..j + 1] == xs[..j] + [xs[j]];
      j := j + 1;
    }
  }

  /** `get_requirements`: strips every line in place, then removes the first `-e .`. */
  method GetRequirements(lines: seq<string>) returns (requirements: seq<string>)
    ensures requirements == RemoveFirst(StripAll(lines), EditableInstall)
  {
    var buffer := new string[|lines|](i requires 0 <= i < |lines| => lines[i]);
    assert buffer[..] == lines;
    StripInPlace(buffer);
    var stripped := buffer[..];
    var j := FindEditableInstall(stripped);
    if j < |stripped| {
      RemoveFirstPresent(stripped, EditableInstall, j);
      requirements := stripped[..j] + stripped[j + 1..];
    } else {
      assert stripped[..j] == stripped;
      RemoveFirstAbsent(stripped, EditableInstall);
      requirements := stripped;
    }
  }

  /** Each kept element is a stripped input line, in input order: the result is
      the stripped lines with at most one `-e .` taken out. */
  lemma {:induction false} RequirementsAreStrippedLines(lines: seq<string>)
    ensures var r := RemoveFirst(StripAll(lines), EditableInstall);
      (|r| == |lines| || |r| == |lines| - 1)
      && (EditableInstall !in StripAll(lines) ==> r == StripAll(lines))
      && (EditableInstall in StripAll(lines) ==>
            exists i :: 0 <= i < |lines| && Strip(lines[i], PySpace) == EditableInstall
              && r == StripAll(lines)[..i] + StripAll(lines)[i + 1..]
              && EditableInstall !in StripAll(lines)[..i])
  {
    var s := StripAll(lines);
    RemoveFirstShape(s, EditableInstall);
    RemoveFirstMultiset(s, EditableInstall);
    if EditableInstall in s {
      var i := FirstIndex(s, EditableInstall);
      assert Strip(lines[i], PySpace) == EditableInstall;
    }
  }

  /** A blank or whitespace-only line becomes the empty string and is kept. */
  lemma {:induction false} BlankLineKept(lines: seq<string>, i: nat)
    requires i < |lines|
    requires forall k :: 0 <= k < |lines[i]| ==> PySpace(lines[i][k])
    ensures "" in RemoveFirst(StripAll(lines), EditableInstall)
  {
    var s := StripAll(lines);
    StripEmptyIff(lines[i], PySpace);
    assert s[i] == "";
    RemoveFirstMultiset(s, EditableInstall);
    assert "" != EditableInstall;
    assert multiset(s)[""] > 0;
    assert multiset(RemoveFirst(s, EditableInstall))[""] > 0;
  }
}
