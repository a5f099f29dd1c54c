/**
 TypoScript helpers: overwriting a value from a content object, resolving a
 dotted TypoScript object path such as `lib.foo` against the frontend's
 setup tree, and choosing the captcha extension.

 The content-object renderer (`cObjGetSingle`) is a deterministic function
 parameter, and so is the host's "extension is loaded" test.
 */
module TypoScript {
  import opened Optional
  import opened Php

  /**
   An entry of a TypoScript array: a string value (key `foo`) or a nested
   array of properties (key `foo.`).
   */
  datatype Node = Leaf(value: string) | Branch(children: map<string, Node>)

  /** One level of a TypoScript setup array. */
  type Setup = map<string, Node>

  /**
   `cObjGetSingle($name, $conf)`: renders a content object from its type and
   its properties; `None` stands for a missing array entry (PHP null).
   */
  type Resolver = (Option<Node>, Option<Node>) -> string

  /** `$level[$key]`, `None` when the key is missing. */
  function Lookup(level: Setup, key: string): Option<Node>
  {
    if key in level then Some(level[key]) else None
  }

  /** The content object `$conf[$key]` with properties `$conf[$key . '.']`. */
  function RenderKey(conf: Setup, key: string, resolve: Resolver): string
  {
    resolve(Lookup(conf, key), Lookup(conf, key + "."))
  }

  /**
   The by-reference string after `overwriteValueFromTypoScript`: replaced by
   the rendered content object when that is truthy, otherwise unchanged.
   */
  function OverwriteValueFromTypoScript(current: string, conf: Setup, key: string, resolve: Resolver): (r: string)
    ensures r == current || r == RenderKey(conf, key, resolve)
    ensures IsEmptyString(RenderKey(conf, key, resolve)) ==> r == current
    ensures !IsEmptyString(RenderKey(conf, key, resolve)) ==> r == RenderKey(conf, key, resolve)
    ensures !IsEmptyString(current) ==> !IsEmptyString(r)
  {
    var rendered := RenderKey(conf, key, resolve);
    if !IsEmptyString(rendered) then rendered else current
  }

  /** Overwriting twice from the same configuration changes nothing further. */
  lemma OverwriteIdempotent(current: string, conf: Setup, key: string, resolve: Resolver)
    ensures var once := OverwriteValueFromTypoScript(current, conf, key, resolve);
            OverwriteValueFromTypoScript(once, conf, key, resolve) == once
  {
  }

  /** When the content object renders something truthy, the old string does not matter. */
  lemma OverwriteForgetsCurrent(a: string, b: string, conf: Setup, key: string, resolve: Resolver)
    requires !IsEmptyString(RenderKey(conf, key, resolve))
    ensures OverwriteValueFromTypoScript(a, conf, key, resolve) == OverwriteValueFromTypoScript(b, conf, key, resolve)
  {
  }

  /**
   One descent step: the current level is replaced by the nested array
   stored under the segment followed by a dot; `None` when there is no such
   nested array (PHP would warn and go on with null).
   */
  function Child(level: Option<Setup>, segment: string): (r: Option<Setup>)
    ensures level.None? ==> r.None?
    ensures r.Some? <==> level.Some? && segment + "." in level.value && level.value[segment + "."].Branch?
    ensures r.Some? ==> r.value == level.value[segment + "."].children
  {
    match level
    case None => None
    case Some(l) =>
      match Lookup(l, segment + ".")
      case Some(Branch(children)) => Some(children)
      case _ => None
  }

  /** The level reached after descending through `segments` in order. */
  function Descend(setup: Setup, segments: seq<string>): Option<Setup>
    decreases |segments|
  {
    if |segments| == 0 then Some(setup)
    else Child(Descend(setup, segments[..|segments| - 1]), segments[|segments| - 1])
  }

  /** Descent takes its first step into `first + "."` and continues from there. */
  lemma {:induction false} DescendFirstStep(setup: Setup, first: string, rest: seq<string>)
    ensures Descend(setup, [first] + rest) ==
      match Child(Some(setup), first)
      case None => None
      case Some(c) => Descend(c, rest)
    decreases |rest|
  {
    if |rest| == 0 {
      assert ([first] + rest)[..0] == [];
    } else {
      var n := |rest| - 1;
      assert ([first] + rest)[..|[first] + rest| - 1] == [first] + rest[..n];
      DescendFirstStep(setup, first, rest[..n]);
    }
  }

  /** A setup holding `inner` under the nested keys `s0.`, `s1.`, ... */
  function Nest(segments: seq<string>, inner: Setup): Setup
    decreases |segments|
  {
    if |segments| == 0 then inner
    else map[segments[0] + "." := Branch(Nest(segments[1..], inner))]
  }

  /** Descending along a path reaches what was nested along that path. */
  lemma {:induction false} DescendNest(segments: seq<string>, inner: Setup)
    ensures Descend(Nest(segments, inner), segments) == Some(inner)
    decreases |segments|
  {
    if |segments| > 0 {
      DescendNest(segments[1..], inner);
      DescendFirstStep(Nest(segments, inner), segments[0], segments[1..]);
      assert [segments[0]] + segments[1..] == segments;
    }
  }

  /** Once a step finds no nested array, the whole descent fails. */
  lemma {:induction false} DescendStaysMissing(setup: Setup, segments: seq<string>, more: seq<string>)
    requires Descend(setup, segments).None?
    ensures Descend(setup, segments + more).None?
    decreases |more|
  {
    if |more| > 0 {
      var n := |more| - 1;
      DescendStaysMissing(setup, segments, more[..n]);
      assert (segments + more)[..|segments + more| - 1] == segments + more[..n];
    } else {
      assert segments + more == segments;
    }
  }

  /**
   `parseTypoScriptFromTypoScriptPath($path)` over the setup tree: `Some("")`
   for an empty path; otherwise the trimmed dot-separated segments but the
   last lead down the tree, and the last names the content object rendered
   there. `None` marks a descent that met no nested array.
   */
  function ResolvePath(setup: Setup, path: string, resolve: Resolver): (r: Option<string>)
    ensures IsEmptyString(path) ==> r == Some("")
  {
    if IsEmptyString(path) then Some("")
    else
      var segments := TrimExplode('.', path);
      RenderAt(Descend(setup, segments[..|segments| - 1]), segments[|segments| - 1], resolve)
  }

  /** `cObjGetSingle($level[$last], $level[$last . '.'])` at the level the descent reached. */
  function RenderAt(level: Option<Setup>, last: string, resolve: Resolver): Option<string>
  {
    match level
    case None => None
    case Some(l) => Some(resolve(Lookup(l, last), Lookup(l, last + ".")))
  }

  /** The dotted path is split and trimmed, and the loop descends one segment at a time. */
  method ParseTypoScriptFromTypoScriptPath(setup: Setup, path: string, resolve: Resolver) returns (r: Option<string>)
    ensures IsEmptyString(path) ==> r == Some("")
    ensures r == ResolvePath(setup, path, resolve)
  {
    if IsEmptyString(path) {
      return Some("");
    }
    var segments := TrimExplode('.', path);
    var leading := segments[..|segments| - 1];
    var level: Option<Setup> := Some(setup);
    var i := 0;
    while i < |leading|
      invariant 0 <= i <= |leading|
      invariant level == Descend(setup, leading[..i])
    {
      assert leading[..i + 1][..i] == leading[..i];
      level := Child(level, leading[i]);
      i := i + 1;
    }
    assert leading[..i] == leading;
    r := RenderAt(level, segments[|segments| - 1], resolve);
  }

  /** Segments that survive `trimExplode('.')` unchanged. */
  predicate PlainSegments(segments: seq<string>)
  {
    forall k :: 0 <= k < |segments| ==> '.' !in segments[k] && IsTrimmed(segments[k])
  }

  /** Splitting and trimming the join of plain segments gives the segments back. */
  lemma TrimExplodeImplode(segments: seq<string>)
    requires |segments| >= 1
    requires PlainSegments(segments)
    ensures TrimExplode('.', Implode('.', segments)) == segments
  {
    ExplodeImplode('.', segments);
    var parts := TrimExplode('.', Implode('.', segments));
    forall k | 0 <= k < |segments|
      ensures parts[k] == segments[k]
    {
      TrimFixedPoint(segments[k]);
    }
  }

  /**
   A path written as plain segments `s0. ... .last` descends through the keys
   `s0.`, `s1.`, ... (one step per segment before the last) and renders the
   content object `last` with properties `last.` at the level reached.
   */
  lemma ResolveJoinedPath(setup: Setup, segments: seq<string>, last: string, resolve: Resolver)
    requires PlainSegments(segments + [last])
    requires !IsEmptyString(Implode('.', segments + [last]))
    ensures ResolvePath(setup, Implode('.', segments + [last]), resolve) ==
      RenderAt(Descend(setup, segments), last, resolve)
  {
    TrimExplodeImplode(segments + [last]);
    assert (segments + [last])[..|segments|] == segments;
  }

  /** Resolving a path through a tree nested along it renders the object found at its end. */
  lemma ResolveNestedPath(segments: seq<string>, last: string, inner: Setup, resolve: Resolver)
    requires PlainSegments(segments + [last])
    requires !IsEmptyString(Implode('.', segments + [last]))
    ensures ResolvePath(Nest(segments, inner), Implode('.', segments + [last]), resolve) ==
      Some(resolve(Lookup(inner, last), Lookup(inner, last + ".")))
  {
    ResolveJoinedPath(Nest(segments, inner), segments, last, resolve);
    DescendNest(segments, inner);
  }

  /** A path without a dot does not descend: it is looked up at the top level. */
  lemma SingleSegmentPath(setup: Setup, path: string, resolve: Resolver)
    requires '.' !in path
    requires !IsEmptyString(path)
    ensures ResolvePath(setup, path, resolve) ==
      Some(resolve(Lookup(setup, Trim(path)), Lookup(setup, Trim(path) + ".")))
  {
    ExplodeWithoutDelimiter('.', path);
    assert TrimExplode('.', path) == [Trim(path)];
  }

  /** `lib.foo` renders `foo`/`foo.` inside the array under `lib.`. */
  lemma LibFooPath(setup: Setup, resolve: Resolver)
    ensures ResolvePath(setup, "lib.foo", resolve) == RenderAt(Child(Some(setup), "lib"), "foo", resolve)
  {
    var segments := ["lib", "foo"];
    assert segments == ["lib"] + ["foo"];
    assert Implode('.', segments) == "lib.foo" by {
      assert segments[1..] == ["foo"];
    }
    assert PlainSegments(segments) by {
      assert '.' !in "lib" && IsTrimmed("lib");
      assert '.' !in "foo" && IsTrimmed("foo");
    }
    ResolveJoinedPath(setup, ["lib"], "foo", resolve);
    assert Descend(setup, ["lib"]) == Child(Some(setup), "lib") by {
      assert ["lib"][..0] == [];
    }
  }

  /** Captcha extensions the form may delegate to. */
  const AllowedCaptchaExtensions: seq<string> := ["captcha"]

  /** `$settings['captcha']['use']`, `None` when either level is missing. */
  function CaptchaUse(settings: Setup): Option<Node>
  {
    match Lookup(settings, "captcha")
    case Some(Branch(captcha)) => Lookup(captcha, "use")
    case _ => None
  }

  /**
   The captcha implementation in use: the configured extension when it is
   an allowed one and loaded, `default` otherwise.
   */
  function GetCaptchaExtensionFromSettings(settings: Setup, isLoaded: string -> bool): (r: string)
    ensures r == "captcha" || r == "default"
    ensures r == "captcha" <==> CaptchaUse(settings) == Some(Leaf("captcha")) && isLoaded("captcha")
  {
    match CaptchaUse(settings)
    case Some(Leaf(use)) =>
      if use in AllowedCaptchaExtensions && isLoaded(use) then use else "default"
    case _ => "default"
  }

  /** Any configured value other than `captcha` falls back to `default`. */
  lemma OtherCaptchaIsDefault(settings: Setup, isLoaded: string -> bool)
    requires CaptchaUse(settings) != Some(Leaf("captcha"))
    ensures GetCaptchaExtensionFromSettings(settings, isLoaded) == "default"
  {
  }
}
