/** The ordered tag generators of pep425.py: the interpreter-family blocks
    (`_cpython_tags`, `_pypy_tags`, `_generic_tags`) and the
    version-independent tail (`_py_interpreter_range`, `_independent_tags`).
    A version is the `(major, minor)` pair `sys.version_info[:2]`. */
module Generators {
  import opened Strings
  import opened Tags

  type Version = (nat, nat)

  /** Python's `range(start, stop, -1)`. */
  function RangeDown(start: int, stop: int): (r: seq<int>)
    ensures |r| == if start > stop then start - stop else 0
    ensures forall i :: 0 <= i < |r| ==> r[i] == start - i
    decreases start - stop
  {
    if start <= stop then [] else [start] + RangeDown(start - 1, stop)
  }

  /** "py{major}". */
  function PyMajorTag(major: nat): string {
    "py" + NatToString(major)
  }

  /** "py{major}{minor}". */
  function PyTag(major: nat, minor: nat): string {
    "py" + NatToString(major) + NatToString(minor)
  }

  /** "cp{major}{minor}", also `_cpython_interpreter`. */
  function CpTag(major: nat, minor: nat): string {
    "cp" + NatToString(major) + NatToString(minor)
  }

  /** "cp" is followed by digits only; with a one-digit minor version they
      denote `10 * major + minor`. */
  lemma CpTagDigits(major: nat, minor: nat)
    ensures var r := CpTag(major, minor);
            |r| >= 4 && r[..2] == "cp" && IsDigits(r[2..])
    ensures minor < 10 ==> DigitsValue(CpTag(major, minor)[2..]) == 10 * major + minor
  {
    var r := CpTag(major, minor);
    NatToStringValue(major);
    NatToStringValue(minor);
    assert r[2..] == NatToString(major) + NatToString(minor);
    assert minor < 10 ==> r[2..][..|r| - 3] == NatToString(major);
  }

  /** With one-digit minor versions, the tag determines the release. */
  lemma CpTagInjective(major: nat, minor: nat, major2: nat, minor2: nat)
    requires minor < 10 && minor2 < 10
    requires CpTag(major, minor) == CpTag(major2, minor2)
    ensures major == major2 && minor == minor2
  {
    CpTagDigits(major, minor);
    CpTagDigits(major2, minor2);
    assert 10 * major + minor == 10 * major2 + minor2;
  }

  /** `_py_interpreter_range`: `py{M}{m}`, then `py{M}`, then `py{M}{k}` for
      `k` from `m - 1` down to 0. */
  function PyInterpreterRange(version: Version): (r: seq<string>)
    ensures |r| == version.1 + 2
    ensures r[0] == PyTag(version.0, version.1)
    ensures r[1] == PyMajorTag(version.0)
    ensures forall i :: 2 <= i < |r| ==> r[i] == PyTag(version.0, version.1 + 1 - i)
  {
    var older := RangeDown(version.1 - 1, -1);
    [PyTag(version.0, version.1), PyMajorTag(version.0)]
      + seq(|older|, i requires 0 <= i < |older| => PyTag(version.0, older[i] as nat))
  }

  /** One tag per platform, in platform order, with the interpreter and ABI fixed. */
  function Block(interpreter: string, abi: string, platforms: seq<string>): (r: seq<Tag>)
    ensures |r| == |platforms|
    ensures forall j :: 0 <= j < |r| ==> r[j] == MakeTag(interpreter, abi, platforms[j])
  {
    seq(|platforms|, j requires 0 <= j < |platforms| => MakeTag(interpreter, abi, platforms[j]))
  }

  /** The nested loop `for v in interpreters: for p in platforms: Tag(v, abi, p)`:
      one `Block` per interpreter, interpreters outer and platforms inner. */
  function Product(interpreters: seq<string>, abi: string, platforms: seq<string>): (r: seq<Tag>)
    ensures |r| == |interpreters| * |platforms|
  {
    if |interpreters| == 0 then []
    else Block(interpreters[0], abi, platforms) + Product(interpreters[1..], abi, platforms)
  }

  /** Position `i * |platforms| + j` of a product holds interpreter `i` with platform `j`. */
  lemma {:induction false} ProductAt(interpreters: seq<string>, abi: string, platforms: seq<string>, i: nat, j: nat)
    requires i < |interpreters| && j < |platforms|
    ensures i * |platforms| + j < |Product(interpreters, abi, platforms)|
    ensures Product(interpreters, abi, platforms)[i * |platforms| + j] == MakeTag(interpreters[i], abi, platforms[j])
  {
    var n := |platforms|;
    var r := Product(interpreters, abi, platforms);
    assert r == Block(interpreters[0], abi, platforms) + Product(interpreters[1..], abi, platforms);
    if i > 0 {
      ProductAt(interpreters[1..], abi, platforms, i - 1, j);
      assert i * n + j == n + ((i - 1) * n + j);
    } else {
      assert i * n + j == j;
    }
  }

  /** `_independent_tags`: every `py*` version with every platform
      (platform inner), then `{interpreter}-none-any`, then every `py*`
      version with the platform `any`. */
  function IndependentTags(interpreter: string, version: Version, platforms: seq<string>): (r: seq<Tag>)
    ensures |r| == (version.1 + 2) * |platforms| + 1 + (version.1 + 2)
  {
    var versions := PyInterpreterRange(version);
    Product(versions, "none", platforms) + [MakeTag(interpreter, "none", "any")] + Product(versions, "none", ["any"])
  }

  /** Position `i * |platforms| + j` of the independent tail is `py*`
      version `i` of `PyInterpreterRange` with platform `j`. */
  lemma IndependentTagsAt(interpreter: string, version: Version, platforms: seq<string>, i: nat, j: nat)
    requires i < version.1 + 2 && j < |platforms|
    ensures i * |platforms| + j < (version.1 + 2) * |platforms|
    ensures IndependentTags(interpreter, version, platforms)[i * |platforms| + j]
         == MakeTag(PyInterpreterRange(version)[i], "none", platforms[j])
  {
    ProductAt(PyInterpreterRange(version), "none", platforms, i, j);
  }

  /** After the `py*` by platform product comes `{interpreter}-none-any`,
      then `py*` version `i` with platform `any` at offset `1 + i`. */
  lemma IndependentTagsAnyAt(interpreter: string, version: Version, platforms: seq<string>, i: nat)
    requires i < version.1 + 2
    ensures var r := IndependentTags(interpreter, version, platforms);
            var k := (version.1 + 2) * |platforms|;
            r[k] == MakeTag(interpreter, "none", "any")
            && r[k + 1 + i] == MakeTag(PyInterpreterRange(version)[i], "none", "any")
  {
    ProductAt(PyInterpreterRange(version), "none", ["any"], i, 0);
  }

  /** The last tag of the tail is `py{M}0-none-any` when the minor version is
      at least 1; with minor version 0 it is `py{M}-none-any`. */
  lemma IndependentTagsLast(interpreter: string, version: Version, platforms: seq<string>)
    ensures var r := IndependentTags(interpreter, version, platforms);
            r[|r| - 1] == if version.1 >= 1 then MakeTag(PyTag(version.0, 0), "none", "any")
                          else MakeTag(PyMajorTag(version.0), "none", "any")
  {
    IndependentTagsAnyAt(interpreter, version, platforms, version.1 + 1);
  }

  /** `cp{M}{k}` for `k` from `m - 1` down to 2: the older CPython releases
      that had the stable ABI of PEP 384 (first in Python 3.2). */
  function StableAbiInterpreters(version: Version): (r: seq<string>)
    ensures |r| == if version.1 >= 3 then version.1 - 2 else 0
    ensures forall t :: 0 <= t < |r| ==> r[t] == CpTag(version.0, version.1 - 1 - t)
  {
    var minors := RangeDown(version.1 - 1, 1);
    seq(|minors|, t requires 0 <= t < |minors| => CpTag(version.0, minors[t] as nat))
  }

  /** `_cpython_tags`: the exact ABI, then `abi3`, then `none`, each over all
      platforms in order, then `cp{M}{k}-abi3` for the older minors. The
      version-independent tail is not part of it. */
  function CPythonTags(version: Version, interpreter: string, abi: string, platforms: seq<string>): (r: seq<Tag>)
  {
    Block(interpreter, abi, platforms)
      + Block(interpreter, "abi3", platforms)
      + Block(interpreter, "none", platforms)
      + Product(StableAbiInterpreters(version), "abi3", platforms)
  }

  /** `_cpython_tags` yields `n * (3 + max(0, m - 2))` tags for `n` platforms. */
  lemma CPythonTagsLength(version: Version, interpreter: string, abi: string, platforms: seq<string>)
    ensures |CPythonTags(version, interpreter, abi, platforms)| == |platforms| * (3 + if version.1 >= 3 then version.1 - 2 else 0)
  {
    var n := |platforms|;
    var s := if version.1 >= 3 then version.1 - 2 else 0;
    assert |CPythonTags(version, interpreter, abi, platforms)| == 3 * n + s * n;
    assert n * (3 + s) == 3 * n + s * n;
  }

  /** The first three blocks of `_cpython_tags`: for platform `j`, position
      `j` is the exact ABI, `n + j` is `abi3` and `2n + j` is `none`. */
  lemma CPythonTagsAt(version: Version, interpreter: string, abi: string, platforms: seq<string>, j: nat)
    requires j < |platforms|
    ensures var r := CPythonTags(version, interpreter, abi, platforms);
            var n := |platforms|;
            && 2 * n + j < |r|
            && r[j] == MakeTag(interpreter, abi, platforms[j])
            && r[n + j] == MakeTag(interpreter, "abi3", platforms[j])
            && r[2 * n + j] == MakeTag(interpreter, "none", platforms[j])
  {
    var b1 := Block(interpreter, abi, platforms);
    var b2 := Block(interpreter, "abi3", platforms);
    var b3 := Block(interpreter, "none", platforms);
    CPythonTagsShape(version, interpreter, abi, platforms);
    ThreeBlocksAt(b1, b2, b3, Product(StableAbiInterpreters(version), "abi3", platforms), j);
  }

  /** `_cpython_tags` as its four parts. */
  lemma CPythonTagsShape(version: Version, interpreter: string, abi: string, platforms: seq<string>)
    ensures CPythonTags(version, interpreter, abi, platforms)
         == Block(interpreter, abi, platforms)
            + (Block(interpreter, "abi3", platforms)
               + (Block(interpreter, "none", platforms) + Product(StableAbiInterpreters(version), "abi3", platforms)))
  {
  }

  /** Position `j` of each of three equally long blocks at the front of a sequence. */
  lemma ThreeBlocksAt(b1: seq<Tag>, b2: seq<Tag>, b3: seq<Tag>, tail: seq<Tag>, j: nat)
    requires |b1| == |b2| == |b3| && j < |b1|
    ensures var r := b1 + (b2 + (b3 + tail));
            && 2 * |b1| + j < |r|
            && r[j] == b1[j] && r[|b1| + j] == b2[j] && r[2 * |b1| + j] == b3[j]
  {
    IndexAfter(b1, b2 + (b3 + tail), j);
    IndexAfter(b1, b2 + (b3 + tail), |b2| + j);
    IndexAfter(b2, b3 + tail, j);
  }

  /** Position `|a| + k` of `a + b` is position `k` of `b`. */
  lemma IndexAfter<T>(a: seq<T>, b: seq<T>, k: nat)
    requires k < |b|
    ensures |a| + k < |a + b| && (a + b)[|a| + k] == b[k]
  {
  }

  /** The stable-ABI part of `_cpython_tags`: position `(3 + t) * n + j` is
      `cp{M}{m-1-t}-abi3` with platform `j`, for `m - 1 - t` from `m - 1`
      down to 2. */
  lemma CPythonTagsStableAt(version: Version, interpreter: string, abi: string, platforms: seq<string>, t: nat, j: nat)
    requires 3 + t <= version.1 && j < |platforms|
    ensures var r := CPythonTags(version, interpreter, abi, platforms);
            (3 + t) * |platforms| + j < |r|
            && r[(3 + t) * |platforms| + j] == MakeTag(CpTag(version.0, version.1 - 1 - t), "abi3", platforms[j])
  {
    CPythonTagsOlderAt(version, interpreter, abi, platforms, t, j);
  }

  /** Position `(3 + t) * n + j` is older interpreter `t` with platform `j`. */
  lemma CPythonTagsOlderAt(version: Version, interpreter: string, abi: string, platforms: seq<string>, t: nat, j: nat)
    requires t < |StableAbiInterpreters(version)| && j < |platforms|
    ensures var r := CPythonTags(version, interpreter, abi, platforms);
            (3 + t) * |platforms| + j < |r|
            && r[(3 + t) * |platforms| + j] == MakeTag(StableAbiInterpreters(version)[t], "abi3", platforms[j])
  {
    CPythonTagsShape(version, interpreter, abi, platforms);
    StableBlockAt(Block(interpreter, abi, platforms), Block(interpreter, "abi3", platforms),
                  Block(interpreter, "none", platforms), platforms, StableAbiInterpreters(version), t, j);
  }

  /** Behind three blocks as wide as the platform list, the product over
      the older interpreters puts interpreter `t` with platform `j` at
      `(3 + t) * n + j`. */
  lemma StableBlockAt(b1: seq<Tag>, b2: seq<Tag>, b3: seq<Tag>, platforms: seq<string>, older: seq<string>, t: nat, j: nat)
    requires |b1| == |b2| == |b3| == |platforms|
    requires t < |older| && j < |platforms|
    ensures var r := b1 + (b2 + (b3 + Product(older, "abi3", platforms)));
            (3 + t) * |platforms| + j < |r|
            && r[(3 + t) * |platforms| + j] == MakeTag(older[t], "abi3", platforms[j])
  {
    var n := |platforms|;
    ProductAt(older, "abi3", platforms, t, j);
    BlockOffset(3, t, n, j);
    AfterThreeBlocks(b1, b2, b3, Product(older, "abi3", platforms), t * n + j);
  }

  /** Position `k` of what follows three equally long blocks. */
  lemma AfterThreeBlocks(b1: seq<Tag>, b2: seq<Tag>, b3: seq<Tag>, tail: seq<Tag>, k: nat)
    requires |b1| == |b2| == |b3| && k < |tail|
    ensures var r := b1 + (b2 + (b3 + tail));
            3 * |b1| + k < |r| && r[3 * |b1| + k] == tail[k]
  {
    IndexAfter(b1, b2 + (b3 + tail), |b2| + |b3| + k);
    IndexAfter(b2, b3 + tail, |b3| + k);
    IndexAfter(b3, tail, k);
  }

  /** Block `b + t` of width `n` starts `t` blocks after block `b`. */
  lemma BlockOffset(b: nat, t: nat, n: nat, j: nat)
    ensures (b + t) * n + j == b * n + (t * n + j)
  {
    assert (b + t) * n == b * n + t * n;
  }

  /** `_pypy_tags`: the `{interpreter}-{abi}` block, then the `{interpreter}-none` block. */
  function PyPyTags(version: Version, interpreter: string, abi: string, platforms: seq<string>): (r: seq<Tag>)
    ensures |r| == 2 * |platforms|
    ensures forall j :: 0 <= j < |platforms| ==> r[j] == MakeTag(interpreter, abi, platforms[j])
    ensures forall j :: 0 <= j < |platforms| ==> r[|platforms| + j] == MakeTag(interpreter, "none", platforms[j])
  {
    Block(interpreter, abi, platforms) + Block(interpreter, "none", platforms)
  }

  /** `_generic_tags`: the `{interpreter}-{abi}` block, then the
      `{interpreter}-none` block unless the ABI is exactly "none". */
  function GenericTags(interpreter: string, version: Version, abi: string, platforms: seq<string>): (r: seq<Tag>)
    ensures |r| == if abi == "none" then |platforms| else 2 * |platforms|
  {
    Block(interpreter, abi, platforms)
      + if abi != "none" then Block(interpreter, "none", platforms) else []
  }

  /** The generic block is the PyPy block when the ABI is not "none", and
      its first half (the `none` block left out) when it is. */
  lemma GenericTagsVersusPyPy(interpreter: string, version: Version, abi: string, platforms: seq<string>)
    ensures abi != "none" ==> GenericTags(interpreter, version, abi, platforms) == PyPyTags(version, interpreter, abi, platforms)
    ensures abi == "none" ==> GenericTags(interpreter, version, abi, platforms) == PyPyTags(version, interpreter, abi, platforms)[..|platforms|]
  {
  }

  /** Tags may repeat: with ABI "none" the two PyPy blocks are the same. */
  lemma PyPyTagsRepeat(version: Version, interpreter: string, platforms: seq<string>)
    requires |platforms| > 0
    ensures var r := PyPyTags(version, interpreter, "none", platforms);
            r[0] == r[|platforms|]
  {
  }

  /** Tags may repeat: an interpreter tag equal to `py{M}{m}` makes the
      interpreter's `none-any` tag collide with the first `py*-none-any` tag. */
  lemma IndependentTagsRepeat(version: Version, platforms: seq<string>)
    ensures var r := IndependentTags(PyTag(version.0, version.1), version, platforms);
            var k := (version.1 + 2) * |platforms|;
            r[k] == r[k + 1]
  {
    IndependentTagsAnyAt(PyTag(version.0, version.1), version, platforms, 0);
  }
}
