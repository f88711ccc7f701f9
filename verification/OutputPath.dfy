/** Choosing an output file for every input so that no two inputs share one. */
module OutputPath {
  import Decimal

  /** A path as its parent directory and its last component. */
  datatype Path = Path(parent: string, name: string)

  function LongestName(existing: seq<Path>): (n: nat)
    ensures forall p :: p in existing ==> |p.name| <= n
  {
    if existing == [] then 0 else
    var rest := LongestName(existing[1..]);
    if |existing[0].name| > rest then |existing[0].name| else rest
  }

  function Prefixed(path: Path, index: nat): Path {
    Path(path.parent, Decimal.Text(index) + "-" + path.name)
  }

  /** `path` with the index and a dash put before its name `n` times. */
  function PrefixedTimes(path: Path, index: nat, n: nat): Path {
    if n == 0 then path else Prefixed(PrefixedTimes(path, index, n - 1), index)
  }

  /**
   The renaming loop ends because each round lengthens the name past the finitely many taken; the
   answer is the first free one of the renamings.
   */
  method UniqueOutputPath(path: Path, existing: seq<Path>, index: nat) returns (r: Path, ghost rounds: nat)
    ensures r !in existing && r == PrefixedTimes(path, index, rounds)
    ensures forall n :: 0 <= n < rounds ==> PrefixedTimes(path, index, n) in existing
    ensures path !in existing ==> r == path
  {
    r, rounds := path, 0;
    if r !in existing {
      return;
    }
    r, rounds := Prefixed(r, index), 1;
    while r in existing
      invariant rounds >= 1 && r == PrefixedTimes(path, index, rounds)
      invariant forall n :: 0 <= n < rounds ==> PrefixedTimes(path, index, n) in existing
      decreases LongestName(existing) + 1 - |r.name|
    {
      r, rounds := Prefixed(r, index), rounds + 1;
    }
  }

  /** `r` is `path` renamed some number of times for the input of this index. */
  ghost predicate Renaming(r: Path, path: Path, index: nat) {
    exists n: nat :: r == PrefixedTimes(path, index, n)
  }

  /** The path chosen for one input when those before it had `before`. */
  ghost predicate Choice(path: Path, wanted: Path, before: seq<Path>) {
    && path !in before
    && path.parent == wanted.parent
    && (wanted !in before ==> path == wanted)
    && Renaming(path, wanted, |before|)
  }

  /** What the start-up loop has chosen for the first inputs. */
  ghost predicate Chosen(wanted: seq<Path>, outputs: seq<Path>) {
    |outputs| <= |wanted| && forall i :: 0 <= i < |outputs| ==> Choice(outputs[i], wanted[i], outputs[..i])
  }

  lemma {:induction false} ChosenOn(wanted: seq<Path>, outputs: seq<Path>, path: Path)
    requires Chosen(wanted, outputs) && |outputs| < |wanted|
    requires Choice(path, wanted[|outputs|], outputs)
    ensures Chosen(wanted, outputs + [path])
  {
    var more := outputs + [path];
    forall i | 0 <= i < |more| ensures Choice(more[i], wanted[i], more[..i]) {
      assert more[..i] == outputs[..i];
      assert outputs[..|outputs|] == outputs;
    }
  }

  /** The start-up loop: the chosen paths are pairwise distinct, and a first come keeps its own. */
  method ChooseOutputs(wanted: seq<Path>) returns (outputs: seq<Path>)
    ensures |outputs| == |wanted|
    ensures forall i, j :: 0 <= i < j < |outputs| ==> outputs[i] != outputs[j]
    ensures forall i :: 0 <= i < |outputs| ==> outputs[i].parent == wanted[i].parent
    ensures forall i :: 0 <= i < |outputs| && wanted[i] !in outputs[..i] ==> outputs[i] == wanted[i]
    ensures forall i :: 0 <= i < |outputs| ==> Renaming(outputs[i], wanted[i], i)
  {
    outputs := [];
    while |outputs| < |wanted|
      invariant Chosen(wanted, outputs)
    {
      var path, rounds := UniqueOutputPath(wanted[|outputs|], outputs, |outputs|);
      SameParent(wanted[|outputs|], |outputs|, rounds);
      ChosenOn(wanted, outputs, path);
      outputs := outputs + [path];
    }
  }

  lemma {:induction false} SameParent(path: Path, index: nat, n: nat)
    ensures PrefixedTimes(path, index, n).parent == path.parent
  {
    if n > 0 { SameParent(path, index, n - 1); }
  }

  function Repeated(s: string, n: nat): string {
    if n == 0 then "" else s + Repeated(s, n - 1)
  }

  lemma {:induction false} RepeatedSnoc(s: string, n: nat)
    ensures Repeated(s, n) + s == s + Repeated(s, n)
  {
    if n > 0 { RepeatedSnoc(s, n - 1); }
  }

  /** Renaming puts the input's number and a dash before the name, once for each round, in the same directory. */
  lemma {:induction false} RenamedIs(path: Path, index: nat, n: nat)
    ensures PrefixedTimes(path, index, n) == Path(path.parent, Repeated(Decimal.Text(index) + "-", n) + path.name)
  {
    if n > 0 {
      RenamedIs(path, index, n - 1);
      var mark := Decimal.Text(index) + "-";
      assert Prefixed(PrefixedTimes(path, index, n - 1), index).name == mark + (Repeated(mark, n - 1) + path.name);
    }
  }
}
