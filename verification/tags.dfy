/** The PEP 425 tag triple and the two parsers of pep425.py: compressed tag
    strings ("Compressed Tag Sets" in PEP 425) and wheel file names (the
    "File name convention" of PEP 427). */
module Tags {
  import opened Wrappers
  import opened Strings

  /** An (interpreter, abi, platform) triple. Values built by `MakeTag`
      hold lower-case fields; equality is structural over the triple. */
  datatype Tag = Tag(interpreter: string, abi: string, platform: string)

  /** The failures the parsers report by raising an exception. */
  datatype Error =
    | MalformedTag        // parse_tag: the text does not have exactly two dashes
    | MissingWheelTag     // parse_wheel_tag: fewer than three dashes in the name

  /** Every field is lower case, as the constructor of the Python class guarantees. */
  predicate WellFormed(t: Tag) {
    IsLower(t.interpreter) && IsLower(t.abi) && IsLower(t.platform)
  }

  /** No field contains a dash or a dot, so the string form parses back. */
  predicate Plain(t: Tag) {
    '-' !in t.interpreter && '-' !in t.abi && '-' !in t.platform
    && '.' !in t.interpreter && '.' !in t.abi && '.' !in t.platform
  }

  /** `Tag(interpreter, abi, platform)`: the fields are lower-cased. The
      result is the one well-formed tag whose fields agree with the
      arguments up to case. */
  function MakeTag(interpreter: string, abi: string, platform: string): (t: Tag)
    ensures WellFormed(t)
    ensures EqualIgnoringCase(t.interpreter, interpreter)
    ensures EqualIgnoringCase(t.abi, abi)
    ensures EqualIgnoringCase(t.platform, platform)
  {
    LowerOfLower(Lower(interpreter));
    LowerOfLower(Lower(abi));
    LowerOfLower(Lower(platform));
    Tag(Lower(interpreter), Lower(abi), Lower(platform))
  }

  /** Two constructed tags are equal exactly when their arguments agree up to case. */
  lemma MakeTagEquality(i: string, a: string, p: string, i': string, a': string, p': string)
    ensures MakeTag(i, a, p) == MakeTag(i', a', p')
        <==> EqualIgnoringCase(i, i') && EqualIgnoringCase(a, a') && EqualIgnoringCase(p, p')
  {
  }

  /** Re-constructing a well-formed tag from its own fields gives it back. */
  lemma MakeTagOfWellFormed(t: Tag)
    requires WellFormed(t)
    ensures MakeTag(t.interpreter, t.abi, t.platform) == t
  {
    LowerOfLower(t.interpreter);
    LowerOfLower(t.abi);
    LowerOfLower(t.platform);
  }

  /** `str(tag)`: the three fields joined by dashes. */
  function ToString(t: Tag): (r: string)
    ensures r == t.interpreter + "-" + t.abi + "-" + t.platform
  {
    var pieces := [t.interpreter, t.abi, t.platform];
    assert pieces[1..][1..] == [t.platform];
    assert Join(pieces[1..], '-') == t.abi + "-" + t.platform;
    Join(pieces, '-')
  }

  /** Splitting the string form of a dash-free tag on '-' gives its three fields. */
  lemma ToStringFields(t: Tag)
    requires '-' !in t.interpreter && '-' !in t.abi && '-' !in t.platform
    ensures Split(ToString(t), '-') == [t.interpreter, t.abi, t.platform]
  {
    SplitJoin([t.interpreter, t.abi, t.platform], '-');
  }

  /** Lower-casing never introduces a dash or a dot. */
  lemma LowerKeepsPunctuationOut(s: string)
    ensures '-' !in s ==> '-' !in Lower(s)
    ensures '.' !in s ==> '.' !in Lower(s)
  {
    forall i | 0 <= i < |s|
      ensures Lower(s)[i] == '-' ==> s[i] == '-'
      ensures Lower(s)[i] == '.' ==> s[i] == '.'
    {
    }
  }

  /** Every tag made from one alternative of each field. */
  function CrossProduct(interpreters: seq<string>, abis: seq<string>, platforms: seq<string>): (r: set<Tag>)
    ensures forall t :: t in r ==> WellFormed(t)
    ensures r == {} <==> interpreters == [] || abis == [] || platforms == []
  {
    var r := set i, a, p | i in interpreters && a in abis && p in platforms :: MakeTag(i, a, p);
    assert interpreters != [] && abis != [] && platforms != [] ==> MakeTag(interpreters[0], abis[0], platforms[0]) in r;
    r
  }

  /** `parse_tag`: the text must split on '-' into exactly three fields (the
      Python unpacking raises otherwise); the result is the cross-product of
      the '.'-separated alternatives of the fields. */
  function ParseTag(text: string): (r: Result<set<Tag>, Error>)
    ensures r.Success? <==> Count(text, '-') == 2
    ensures r.Failure? ==> r.error == MalformedTag
    ensures r.Success? ==> forall t :: t in r.value ==> WellFormed(t) && Plain(t)
  {
    var fields := Split(text, '-');
    if |fields| != 3 then Failure(MalformedTag)
    else
      var interpreters, abis, platforms := Split(fields[0], '.'), Split(fields[1], '.'), Split(fields[2], '.');
      SplitPiecesAvoid(fields[0], '.', '-');
      SplitPiecesAvoid(fields[1], '.', '-');
      SplitPiecesAvoid(fields[2], '.', '-');
      CrossProductPlain(interpreters, abis, platforms);
      Success(CrossProduct(interpreters, abis, platforms))
  }

  /** Alternatives free of dashes and dots give plain, well-formed tags. */
  lemma CrossProductPlain(interpreters: seq<string>, abis: seq<string>, platforms: seq<string>)
    requires forall k :: 0 <= k < |interpreters| ==> '-' !in interpreters[k] && '.' !in interpreters[k]
    requires forall k :: 0 <= k < |abis| ==> '-' !in abis[k] && '.' !in abis[k]
    requires forall k :: 0 <= k < |platforms| ==> '-' !in platforms[k] && '.' !in platforms[k]
    ensures forall t :: t in CrossProduct(interpreters, abis, platforms) ==> WellFormed(t) && Plain(t)
  {
    forall i, a, p | i in interpreters && a in abis && p in platforms
      ensures Plain(MakeTag(i, a, p))
    {
      LowerKeepsPunctuationOut(i);
      LowerKeepsPunctuationOut(a);
      LowerKeepsPunctuationOut(p);
    }
  }

  /** A compressed tag string written from lists of plain alternatives parses
      to exactly the cross-product of those lists. */
  lemma ParseCompressedTag(interpreters: seq<string>, abis: seq<string>, platforms: seq<string>)
    requires |interpreters| >= 1 && |abis| >= 1 && |platforms| >= 1
    requires forall k :: 0 <= k < |interpreters| ==> '-' !in interpreters[k] && '.' !in interpreters[k]
    requires forall k :: 0 <= k < |abis| ==> '-' !in abis[k] && '.' !in abis[k]
    requires forall k :: 0 <= k < |platforms| ==> '-' !in platforms[k] && '.' !in platforms[k]
    ensures ParseTag(Join([Join(interpreters, '.'), Join(abis, '.'), Join(platforms, '.')], '-'))
         == Success(CrossProduct(interpreters, abis, platforms))
  {
    var fields := [Join(interpreters, '.'), Join(abis, '.'), Join(platforms, '.')];
    JoinNoOther(interpreters, '.', '-');
    JoinNoOther(abis, '.', '-');
    JoinNoOther(platforms, '.', '-');
    SplitJoin(fields, '-');
    SplitJoin(interpreters, '.');
    SplitJoin(abis, '.');
    SplitJoin(platforms, '.');
  }

  /** Joining pieces that avoid `c` with a separator other than `c` avoids `c`. */
  lemma {:induction false} JoinNoOther(pieces: seq<string>, sep: char, c: char)
    requires sep != c
    requires forall k :: 0 <= k < |pieces| ==> c !in pieces[k]
    ensures c !in Join(pieces, sep)
  {
    if |pieces| > 1 {
      JoinNoOther(pieces[1..], sep, c);
    }
  }

  /** Round trip: the string form of a well-formed plain tag parses to that tag alone. */
  lemma ParseTagRoundTrip(t: Tag)
    requires WellFormed(t) && Plain(t)
    ensures ParseTag(ToString(t)) == Success({t})
  {
    ParseCompressedTag([t.interpreter], [t.abi], [t.platform]);
    MakeTagOfWellFormed(t);
    var s := CrossProduct([t.interpreter], [t.abi], [t.platform]);
    assert s == {t};
  }

  /** Every tag a parse produces prints to text that parses back to that tag alone. */
  lemma ParsedTagsRoundTrip(text: string, t: Tag)
    requires ParseTag(text).Success? && t in ParseTag(text).value
    ensures ParseTag(ToString(t)) == Success({t})
  {
    ParseTagRoundTrip(t);
  }

  /** `os.path.splitext(path)[0]` for '/'-separated paths: the extension
      starts at the last '.' of the last path component, unless everything
      before that '.' in the component is a dot too. */
  function StripExtension(path: string): (r: string)
    ensures |r| <= |path| && r == path[..|r|]
    ensures r != path ==> path[|r|] == '.' && '.' !in path[|r| + 1..] && '/' !in path[|r|..]
    ensures r != path ==> exists k :: 0 <= k < |r| && path[k] != '.' && '/' !in path[k..]
  {
    var sep := RIndex(path, '/', |path|);
    var start := if sep.Some? then sep.value + 1 else 0;
    var dot := RIndex(path, '.', |path|);
    if dot.Some? && dot.value >= start && exists k | start <= k < dot.value :: path[k] != '.' then
      assert '/' !in path[start..] by {
        if sep.Some? {
          assert path[start..] == path[sep.value + 1..|path|];
        } else {
          assert path[start..] == path[..|path|];
        }
      }
      assert exists k :: 0 <= k < dot.value && path[k] != '.' && '/' !in path[k..] by {
        var k :| start <= k < dot.value && path[k] != '.';
        AbsentFromSuffix(path, '/', start, k);
      }
      AbsentFromSuffix(path, '/', start, dot.value);
      path[..dot.value]
    else
      path
  }

  /** The position the loop `while parts: index = name.rindex("-", 0, index)`
      stops at, started with `hi`: the `parts`-th `c` from the right before
      `hi`, or `None` where `rindex` raises. */
  function RIndexN(s: string, c: char, parts: nat, hi: nat): (r: Option<nat>)
    requires hi <= |s|
    ensures r.Some? ==> r.value <= hi && Count(s[r.value..hi], c) == parts
    ensures r.Some? && parts > 0 ==> s[r.value] == c
    ensures r.None? <==> Count(s[..hi], c) < parts
    decreases parts
  {
    if parts == 0 then
      assert s[hi..hi] == [];
      Some(hi)
    else
      match RIndex(s, c, hi)
      case None =>
        CountZero(s[..hi], c);
        None
      case Some(k) =>
        var r := RIndexN(s, c, parts - 1, k);
        CountAcross(s, c, 0, k, hi);
        assert s[..hi] == s[0..hi] && s[..k] == s[0..k];
        if r.Some? then
          CountAcross(s, c, r.value, k, hi);
          r
        else
          r
  }

  /** The last `c` before `hi`, at `k`, adds one to the count of a slice ending at `hi`. */
  lemma CountAcross(s: string, c: char, lo: nat, k: nat, hi: nat)
    requires lo <= k < hi <= |s|
    requires s[k] == c && c !in s[k + 1..hi]
    ensures Count(s[lo..hi], c) == Count(s[lo..k], c) + 1
  {
    assert s[k..hi] == [c] + s[k + 1..hi];
    CountZero(s[k + 1..hi], c);
    assert s[lo..hi] == s[lo..k] + s[k..hi];
    CountConcat(s[lo..k], s[k..hi], c);
  }

  /** `parse_wheel_tag`: strip the extension, find the third '-' from the
      right of what remains, and parse the text after it. */
  function ParseWheelTag(path: string): (r: Result<set<Tag>, Error>)
    ensures r.Failure? <==> Count(StripExtension(path), '-') < 3
    ensures r.Failure? ==> r.error == MissingWheelTag
  {
    var name := StripExtension(path);
    assert name[..|name|] == name;
    match RIndexN(name, '-', 3, |name|)
    case None => Failure(MissingWheelTag)
    case Some(index) =>
      assert name[index..] == [name[index]] + name[index + 1..];
      assert name[index..|name|] == name[index..];
      ParseTag(name[index + 1..])
  }

  /** The search loop stops exactly at a position `j` that has `c` and
      `parts` occurrences of `c` between it and `hi`. */
  lemma {:induction false} RIndexNIs(s: string, c: char, parts: nat, hi: nat, j: nat)
    requires j <= hi <= |s|
    requires Count(s[j..hi], c) == parts
    requires parts > 0 ==> s[j] == c
    requires parts == 0 ==> j == hi
    ensures RIndexN(s, c, parts, hi) == Some(j)
    decreases parts
  {
    if parts > 0 {
      CountLeading(s, c, j, hi);
      RIndexAtLeast(s, c, hi, j);
      var k := RIndex(s, c, hi).value;
      assert s[k..hi] == [c] + s[k + 1..hi];
      CountZero(s[k + 1..hi], c);
      assert s[j..hi] == s[j..k] + s[k..hi];
      CountConcat(s[j..k], s[k..hi], c);
      CountLeading(s, c, j, k);
      RIndexNIs(s, c, parts - 1, k, j);
    }
  }

  /** Only the last three dash-separated fields matter: for a wheel path
      `<anything>-<tag text>.<extension>`, whatever the directories and the
      name and version before the tag text contain, the result is the
      parse of the tag text. */
  lemma WheelTagIgnoresPrefix(prefix: string, tagText: string, ext: string)
    requires Count(tagText, '-') == 2
    requires '/' !in tagText
    requires '.' !in ext && '/' !in ext
    ensures ParseWheelTag(prefix + "-" + tagText + "." + ext) == ParseTag(tagText)
  {
    var name := prefix + "-" + tagText;
    StripExtensionOfWheel(prefix, tagText, ext);
    assert name[|prefix| + 1..] == tagText;
    ParseWheelTagAt(prefix + "-" + tagText + "." + ext, |prefix|);
  }

  /** When the extension-stripped name has a '-' at `j` followed by exactly
      two more, the wheel tag is the parse of the text after `j`. */
  lemma ParseWheelTagAt(path: string, j: nat)
    requires j < |StripExtension(path)|
    requires StripExtension(path)[j] == '-'
    requires Count(StripExtension(path)[j + 1..], '-') == 2
    ensures ParseWheelTag(path) == ParseTag(StripExtension(path)[j + 1..])
  {
    var name := StripExtension(path);
    assert name[j..|name|] == "-" + name[j + 1..];
    CountConcat("-", name[j + 1..], '-');
    RIndexNIs(name, '-', 3, |name|, j);
  }

  /** A character absent from a suffix is absent from every shorter suffix. */
  lemma AbsentFromSuffix(s: string, c: char, lo: nat, k: nat)
    requires lo <= k <= |s| && c !in s[lo..]
    ensures c !in s[k..]
  {
    assert s[k..] == s[lo..][k - lo..];
  }

  /** A name whose only '.' opens it, like ".bashrc", keeps its name:
      nothing is stripped. */
  lemma StripExtensionDotfile()
    ensures StripExtension(".bashrc") == ".bashrc"
  {
  }

  /** The extension starts at the last '.' when a character other than '.'
      precedes it in the same path component. */
  lemma StripExtensionAt(path: string, dot: nat, k: nat)
    requires k < dot < |path|
    requires path[dot] == '.' && '.' !in path[dot + 1..]
    requires path[k] != '.' && '/' !in path[k..]
    ensures StripExtension(path) == path[..dot]
  {
    assert path[dot + 1..|path|] == path[dot + 1..];
    RIndexSkip(path, '.', dot + 1, |path|);
    assert path[k..|path|] == path[k..];
    RIndexSkip(path, '/', k, |path|);
  }

  /** For `<prefix>-<tag text>.<extension>` the extension stripped is exactly `.<extension>`. */
  lemma StripExtensionOfWheel(prefix: string, tagText: string, ext: string)
    requires '/' !in tagText
    requires '.' !in ext && '/' !in ext
    ensures StripExtension(prefix + "-" + tagText + "." + ext) == prefix + "-" + tagText
  {
    var name := prefix + "-" + tagText;
    var path := name + "." + ext;
    assert path == prefix + "-" + tagText + "." + ext;
    assert path[|name| + 1..] == ext;
    assert path[|prefix|..] == "-" + tagText + "." + ext;
    StripExtensionAt(path, |name|, |prefix|);
    assert path[..|name|] == name;
  }

  /** A wheel path whose tag text is the string form of one plain tag
      declares exactly that tag. */
  lemma WheelTagOfTag(prefix: string, t: Tag, ext: string)
    requires WellFormed(t) && Plain(t)
    requires '/' !in t.interpreter && '/' !in t.abi && '/' !in t.platform
    requires '.' !in ext && '/' !in ext
    ensures ParseWheelTag(prefix + "-" + ToString(t) + "." + ext) == Success({t})
  {
    ToStringFields(t);
    JoinNoOther([t.interpreter, t.abi, t.platform], '-', '/');
    WheelTagIgnoresPrefix(prefix, ToString(t), ext);
    ParseTagRoundTrip(t);
  }

  /** `parse_wheel_tag("gidgethub-3.0.0-py3-none-any.whl")` is `{py3-none-any}`. */
  lemma ParseWheelTagExample(path: string)
    requires path == "gidgethub-3.0.0-py3-none-any.whl"
    ensures ParseWheelTag(path) == Success({Tag("py3", "none", "any")})
  {
    WheelExamplePieces();
    WheelTagOfTag("gidgethub-3.0.0", Tag("py3", "none", "any"), "whl");
  }

  /** The pieces of the example wheel name, spelled out. */
  lemma WheelExamplePieces()
    ensures var t := Tag("py3", "none", "any");
            && WellFormed(t) && Plain(t)
            && '/' !in t.interpreter && '/' !in t.abi && '/' !in t.platform
            && "gidgethub-3.0.0-py3-none-any.whl" == "gidgethub-3.0.0" + "-" + ToString(t) + "." + "whl"
  {
    var t := Tag("py3", "none", "any");
    assert [t.interpreter, t.abi, t.platform][1..][1..] == ["any"];
    assert ToString(t) == "py3" + "-" + ("none" + "-" + "any");
  }

  /** A tag string with two interpreter alternatives and one ABI and
      platform parses to the two tags that share the ABI and platform. */
  lemma ParseTwoInterpreters(i1: string, i2: string, a: string, p: string)
    requires WellFormed(Tag(i1, a, p)) && Plain(Tag(i1, a, p))
    requires WellFormed(Tag(i2, a, p)) && Plain(Tag(i2, a, p))
    ensures ParseTag(i1 + "." + i2 + "-" + a + "-" + p) == Success({Tag(i1, a, p), Tag(i2, a, p)})
  {
    var interpreters := [i1, i2];
    assert interpreters[1..] == [i2];
    var fields := [Join(interpreters, '.'), Join([a], '.'), Join([p], '.')];
    assert fields[1..][1..] == [fields[2]];
    assert Join(interpreters, '.') == i1 + "." + Join(interpreters[1..], '.');
    assert Join([i2], '.') == i2;
    assert fields[0] == i1 + "." + i2;
    assert fields[1] == a && fields[2] == p;
    assert Join(fields[1..], '-') == a + "-" + p;
    assert Join(fields, '-') == (i1 + "." + i2) + "-" + (a + "-" + p);
    assert (i1 + "." + i2) + "-" + (a + "-" + p) == i1 + "." + i2 + "-" + a + "-" + p;
    ParseCompressedTag(interpreters, [a], [p]);
    MakeTagOfWellFormed(Tag(i1, a, p));
    MakeTagOfWellFormed(Tag(i2, a, p));
    assert CrossProduct(interpreters, [a], [p]) == {Tag(i1, a, p), Tag(i2, a, p)};
  }

  /** `parse_tag("py2.py3-none-any")` is `{py2-none-any, py3-none-any}`. */
  lemma ParseTagExample(text: string)
    requires text == "py2.py3-none-any"
    ensures ParseTag(text) == Success({Tag("py2", "none", "any"), Tag("py3", "none", "any")})
  {
    TagExamplePieces();
    ParseTwoInterpreters("py2", "py3", "none", "any");
  }

  /** The pieces of the example tag string, spelled out. */
  lemma TagExamplePieces()
    ensures WellFormed(Tag("py2", "none", "any")) && Plain(Tag("py2", "none", "any"))
    ensures WellFormed(Tag("py3", "none", "any")) && Plain(Tag("py3", "none", "any"))
    ensures "py2.py3-none-any" == "py2" + "." + "py3" + "-" + "none" + "-" + "any"
  {
  }
}
