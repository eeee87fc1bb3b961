/**
 The route subject string a CSRF token is bound to: the route's path with every
 leading `/` trimmed, then each raw route parameter substituted for its
 `{name}` placeholder, one `str_replace` per parameter, in the order the
 parameters are given.
 */
module Subject {
  import opened PhpStrings

  /** Raw route parameters as name/value pairs, in iteration order. */
  type Parameters = seq<(string, string)>

  /** The placeholder text `{name}` that a parameter replaces. */
  function Placeholder(name: string): (p: string)
    ensures |p| == |name| + 2
    ensures p[0] == '{' && p[|p| - 1] == '}' && p[1..|p| - 1] == name
  {
    "{" + name + "}"
  }

  /**
   One `foreach` step: substitute `value` for every `{name}` in `path`. A path
   with no `{` is untouched, since every placeholder starts with `{`.
   */
  function SubstituteOne(path: string, name: string, value: string): (r: string)
    ensures '{' !in path ==> r == path
  {
    PlaceholderWithoutBraces(path, name, value);
    StrReplace(Placeholder(name), value, path)
  }

  /** No placeholder occurs in a path without `{`, so replacing one leaves the path alone. */
  lemma PlaceholderWithoutBraces(path: string, name: string, value: string)
    ensures '{' !in path ==> StrReplace(Placeholder(name), value, path) == path
  {
    if '{' !in path {
      FirstCharAbsent(path, Placeholder(name));
      StrReplaceAbsent(Placeholder(name), value, path);
    }
  }

  /**
   The `foreach` over the parameters, consuming them front to back. A path
   with no `{` at all is a fixed point of the whole fold.
   */
  function Substitute(path: string, params: Parameters): (r: string)
    ensures '{' !in path ==> r == path
    decreases |params|
  {
    if |params| == 0 then path
    else
      Substitute(SubstituteOne(path, params[0].0, params[0].1), params[1..])
  }

  /**
   The subject built from a route path template and its raw parameters. A
   template without `{` yields its trimmed self, whatever the parameters.
   */
  function BuildSubject(template: string, params: Parameters): (r: string)
    ensures '{' !in template ==> r == LTrim(template, '/')
  {
    LTrimKeepsChars(template, '/', '{');
    Substitute(LTrim(template, '/'), params)
  }

  /**
   Substitution is a left fold in parameter order: appending a parameter
   applies its replacement to the result of all the earlier ones.
   */
  lemma {:induction false} SubstituteSnoc(path: string, params: Parameters, name: string, value: string)
    ensures Substitute(path, params + [(name, value)])
            == SubstituteOne(Substitute(path, params), name, value)
    decreases |params|
  {
    if |params| == 0 {
      assert params + [(name, value)] == [(name, value)];
    } else {
      var next := SubstituteOne(path, params[0].0, params[0].1);
      assert (params + [(name, value)])[1..] == params[1..] + [(name, value)];
      SubstituteSnoc(next, params[1..], name, value);
    }
  }

  /** A parameter whose placeholder is absent from the current path leaves it unchanged. */
  lemma SubstituteOneAbsent(path: string, name: string, value: string)
    requires !Contains(path, Placeholder(name))
    ensures SubstituteOne(path, name, value) == path
  {
    StrReplaceAbsent(Placeholder(name), value, path);
  }

  /** With no parameters the subject is the template with its leading slashes trimmed. */
  lemma BuildSubjectNoParameters(template: string)
    ensures BuildSubject(template, []) == LTrim(template, '/')
    ensures BuildSubject(template, []) == [] || BuildSubject(template, [])[0] != '/'
  {
  }

  /** With a single parameter the subject is one `str_replace` on the trimmed template. */
  lemma BuildSubjectSingle(template: string, name: string, value: string)
    ensures BuildSubject(template, [(name, value)])
            == StrReplace(Placeholder(name), value, LTrim(template, '/'))
  {
    var params := [(name, value)];
    assert params[0] == (name, value) && params[1..] == [];
    var trimmed := LTrim(template, '/');
    assert Substitute(trimmed, params) == Substitute(SubstituteOne(trimmed, name, value), []);
  }

  /** A template with a single leading slash loses exactly that slash. */
  lemma LTrimSingleSlash(rest: string)
    requires rest == [] || rest[0] != '/'
    ensures LTrim("/" + rest, '/') == rest
  {
  }

  /**
   A one-slash template whose `{`-free pieces are separated by one parameter's
   placeholder: each placeholder becomes the value, whatever the value holds.
   */
  lemma BuildSubjectOfJoin(parts: seq<string>, name: string, value: string)
    requires |parts| > 0
    requires forall k :: 0 <= k < |parts| ==> '{' !in parts[k]
    requires parts[0] == [] || parts[0][0] != '/'
    ensures BuildSubject("/" + Join(parts, Placeholder(name)), [(name, value)]) == Join(parts, value)
  {
    var p := Placeholder(name);
    JoinStart(parts, p);
    BuildSubjectSlashLed(Join(parts, p), name, value);
    SubstituteOneOfJoin(parts, name, value);
  }

  /** A join of `{`-led separators starts like its first piece, or with `{`. */
  lemma JoinStart(parts: seq<string>, sep: string)
    requires |parts| > 0 && |sep| > 0 && sep[0] == '{'
    requires parts[0] == [] || parts[0][0] != '/'
    ensures Join(parts, sep) == [] || Join(parts, sep)[0] != '/'
  {
    if |parts| > 1 {
      var rest := sep + Join(parts[1..], sep);
      assert Join(parts, sep) == parts[0] + rest;
      assert rest[0] == '{';
    }
  }

  /** A template with a single leading slash and one parameter: one step on the rest. */
  lemma BuildSubjectSlashLed(body: string, name: string, value: string)
    requires body == [] || body[0] != '/'
    ensures BuildSubject("/" + body, [(name, value)]) == SubstituteOne(body, name, value)
  {
    LTrimSingleSlash(body);
    BuildSubjectSingle("/" + body, name, value);
  }

  /**
   One step replaces every placeholder that separates `{`-free pieces, and
   leaves the pieces alone.
   */
  lemma SubstituteOneOfJoin(parts: seq<string>, name: string, value: string)
    requires |parts| > 0
    requires forall k :: 0 <= k < |parts| ==> '{' !in parts[k]
    ensures SubstituteOne(Join(parts, Placeholder(name)), name, value) == Join(parts, value)
  {
    var p := Placeholder(name);
    forall k | 0 <= k < |parts|
      ensures !Contains(parts[k] + p[..|p| - 1], p)
    {
      FirstCharAbsentPiece(p, parts[k]);
    }
    StrReplaceEveryOccurrence(p, value, parts);
  }

  /** Two pieces around one separator. */
  lemma JoinTwo(a: string, b: string, sep: string)
    ensures Join([a, b], sep) == a + sep + b
  {
  }

  /** Three pieces around two separators. */
  lemma JoinThree(a: string, b: string, c: string, sep: string)
    ensures Join([a, b, c], sep) == a + sep + b + sep + c
  {
    assert [a, b, c][1..] == [b, c];
    JoinTwo(b, c, sep);
  }

  /**
   A placeholder used once is replaced by its value: `/node/{id}/edit` with
   id=42 gives `node/42/edit`.
   */
  lemma BuildSubjectOnePlaceholder(prefix: string, suffix: string, name: string, value: string)
    requires '{' !in prefix && '{' !in suffix
    requires prefix == [] || prefix[0] != '/'
    ensures BuildSubject("/" + prefix + Placeholder(name) + suffix, [(name, value)]) == prefix + value + suffix
  {
    var p := Placeholder(name);
    var parts := [prefix, suffix];
    assert Join(parts, p) == prefix + p + suffix by {
      JoinTwo(prefix, suffix, p);
    }
    assert Join(parts, value) == prefix + value + suffix by {
      JoinTwo(prefix, suffix, value);
    }
    assert "/" + prefix + p + suffix == "/" + (prefix + p + suffix);
    BuildSubjectOfJoin(parts, name, value);
  }

  /**
   Every occurrence of a placeholder is replaced, not only the first:
   `/a/{id}/b/{id}` with id=5 gives `a/5/b/5`.
   */
  lemma BuildSubjectRepeatedPlaceholder(prefix: string, middle: string, suffix: string, name: string, value: string)
    requires '{' !in prefix && '{' !in middle && '{' !in suffix
    requires prefix == [] || prefix[0] != '/'
    ensures BuildSubject("/" + prefix + Placeholder(name) + middle + Placeholder(name) + suffix, [(name, value)])
            == prefix + value + middle + value + suffix
  {
    var p := Placeholder(name);
    var parts := [prefix, middle, suffix];
    var template := prefix + p + middle + p + suffix;
    assert Join(parts, p) == template by {
      JoinThree(prefix, middle, suffix, p);
    }
    assert Join(parts, value) == prefix + value + middle + value + suffix by {
      JoinThree(prefix, middle, suffix, value);
    }
    assert "/" + prefix + p + middle + p + suffix == "/" + template by {
      SlashRegroup(prefix, p, middle, p, suffix);
    }
    BuildSubjectOfJoin(parts, name, value);
  }

  /** `ltrim` removes every leading slash, not only the first: `//node` gives `node`. */
  lemma BuildSubjectTrimsAllSlashes(slashes: string, rest: string, params: Parameters)
    requires forall i :: 0 <= i < |slashes| ==> slashes[i] == '/'
    requires rest == [] || rest[0] != '/'
    ensures BuildSubject(slashes + rest, params) == Substitute(rest, params)
  {
    var s := slashes + rest;
    assert LTrim(s, '/') == rest by {
      assert s[|s| - |rest|..] == rest;
      LTrimCharacterization(s, '/', rest);
    }
  }

  /**
   Placeholders of two different names do not match each other: `{x}` does not
   occur at the start of `{y}` followed by anything, for names without `}`.
   */
  lemma PlaceholderNotAt(x: string, y: string, t: string)
    requires '}' !in x && '}' !in y && x != y
    ensures !OccursAt(Placeholder(y) + t, Placeholder(x), 0)
  {
    var px, py := Placeholder(x), Placeholder(y);
    var s := py + t;
    if |px| <= |s| {
      if |x| < |y| {
        assert s[|x| + 1] == y[|x|];
        assert s[..|px|][|x| + 1] != px[|x| + 1];
      } else if |x| > |y| {
        assert s[|y| + 1] == '}';
        assert s[..|px|][|y| + 1] != px[|y| + 1];
      } else {
        assert s[..|px|] == py;
      }
    }
  }

  /**
   The text after a `{x}` placeholder, made of `{`-free pieces around a `{y}`
   placeholder of another name, contains no `{x}`.
   */
  lemma PlaceholderAbsent(middle: string, suffix: string, x: string, y: string)
    requires '{' !in middle && '{' !in suffix && '{' !in y
    requires '}' !in x && '}' !in y && x != y
    ensures !Contains(middle + Placeholder(y) + suffix, Placeholder(x))
  {
    var px, py := Placeholder(x), Placeholder(y);
    var s := middle + py + suffix;
    forall j: nat | j <= |s|
      ensures !OccursAt(s, px, j)
    {
      if j == |middle| {
        assert s[j..] == py + suffix;
        OccursAtDrop(s, px, j);
        PlaceholderNotAt(x, y, suffix);
      } else if j < |s| {
        assert s[j] != '{' by {
          if j < |middle| {
            assert s[j] == middle[j];
          } else if j < |middle| + |py| {
            assert s[j] == py[j - |middle|];
            assert py[1..|py| - 1] == y;
          } else {
            assert s[j] == suffix[j - |middle| - |py|];
          }
        }
      }
    }
  }

  /**
   Two parameters with different placeholders are each substituted at their
   own place: `/a/{x}/{y}` with x=1 then y=2 gives `a/1/2`. The first value
   must not contain `{`, since a later parameter would rewrite it.
   */
  lemma BuildSubjectTwoPlaceholders(prefix: string, middle: string, suffix: string,
                                    x: string, vx: string, y: string, vy: string)
    requires '{' !in prefix && '{' !in middle && '{' !in suffix && '{' !in vx
    requires prefix == [] || prefix[0] != '/'
    requires '{' !in y && '}' !in x && '}' !in y && x != y
    ensures BuildSubject("/" + prefix + Placeholder(x) + middle + Placeholder(y) + suffix, [(x, vx), (y, vy)])
            == prefix + vx + middle + vy + suffix
  {
    var px, py := Placeholder(x), Placeholder(y);
    var trimmed := prefix + px + (middle + py + suffix);
    assert SubstituteOne(SubstituteOne(trimmed, x, vx), y, vy) == prefix + vx + middle + vy + suffix by {
      SubstituteBeforeOther(prefix, middle, suffix, x, vx, y);
      SubstituteLone(prefix + vx + middle, suffix, y, vy);
    }
    assert LTrim("/" + trimmed, '/') == trimmed by {
      assert trimmed[0] == if prefix == [] then px[0] else prefix[0];
      LTrimSingleSlash(trimmed);
    }
    BuildSubjectPair("/" + trimmed, x, vx, y, vy);
    RegroupTemplate(prefix, px, middle, py, suffix);
  }

  /**
   A `{x}` placeholder followed by another parameter's `{y}` placeholder: the
   step for `x` replaces its own placeholder and leaves `{y}` alone.
   */
  lemma SubstituteBeforeOther(prefix: string, middle: string, suffix: string, x: string, vx: string, y: string)
    requires '{' !in prefix && '{' !in middle && '{' !in suffix
    requires '{' !in y && '}' !in x && '}' !in y && x != y
    ensures SubstituteOne(prefix + Placeholder(x) + (middle + Placeholder(y) + suffix), x, vx)
            == prefix + vx + middle + Placeholder(y) + suffix
  {
    var px, py := Placeholder(x), Placeholder(y);
    var after := middle + py + suffix;
    PlaceholderAbsent(middle, suffix, x, y);
    FirstCharAbsentPrefix(prefix, px + after, px);
    StrReplaceOnce(px, vx, prefix, after);
    Regroup(prefix, vx, middle, py, suffix);
  }

  /** A lone placeholder between `{`-free pieces becomes the value. */
  lemma SubstituteLone(before: string, after: string, name: string, value: string)
    requires '{' !in before && '{' !in after
    ensures SubstituteOne(before + Placeholder(name) + after, name, value) == before + value + after
  {
    var p := Placeholder(name);
    FirstCharAbsent(after, p);
    FirstCharAbsentPrefix(before, p + after, p);
    StrReplaceOnce(p, value, before, after);
  }

  /** With two parameters the subject is two `str_replace` calls in order on the trimmed template. */
  lemma BuildSubjectPair(template: string, x: string, vx: string, y: string, vy: string)
    ensures BuildSubject(template, [(x, vx), (y, vy)])
            == SubstituteOne(SubstituteOne(LTrim(template, '/'), x, vx), y, vy)
  {
    var params := [(x, vx), (y, vy)];
    assert params[0] == (x, vx) && params[1..] == [(y, vy)];
    var once := SubstituteOne(LTrim(template, '/'), x, vx);
    assert BuildSubject(template, params) == Substitute(once, [(y, vy)]);
    assert [(y, vy)][0] == (y, vy) && [(y, vy)][1..] == [];
  }

  /** A slash followed by five strings, regrouped as a slash and their concatenation. */
  lemma SlashRegroup(a: string, b: string, c: string, d: string, e: string)
    ensures "/" + a + b + c + d + e == "/" + (a + b + c + d + e)
  {
  }

  /** The slash-led template, regrouped around its trimmed body. */
  lemma RegroupTemplate(a: string, b: string, c: string, d: string, e: string)
    ensures "/" + a + b + c + d + e == "/" + (a + b + (c + d + e))
  {
  }

  /** Regrouping a concatenation of five strings. */
  lemma Regroup(a: string, b: string, c: string, d: string, e: string)
    ensures a + b + (c + d + e) == a + b + c + d + e
  {
  }

  /**
   `/a/{x}/{y}` with values for `x` then `y` gives `a/<x>/<y>`, as x=1, y=2
   gives `a/1/2`, when the value for `x` holds no `{`.
   */
  lemma TwoParametersExample(one: string, two: string)
    requires '{' !in one
    ensures BuildSubject("/a/{x}/{y}", [("x", one), ("y", two)]) == "a/" + one + "/" + two
  {
    assert "/a/{x}/{y}" == "/" + "a/" + Placeholder("x") + "/" + Placeholder("y") + "";
    BuildSubjectTwoPlaceholders("a/", "/", "", "x", one, "y", two);
    assert "a/" + one + "/" + two + "" == "a/" + one + "/" + two;
  }

  /**
   A value for `x` that is the `{y}` placeholder is rewritten by the later `y`
   parameter, so both places end up holding the value for `y`: `/a/{x}/{y}`
   with x=`{y}` then y=v gives `a/<v>/<v>`.
   */
  lemma BuildSubjectValueIntroducesPlaceholder(prefix: string, middle: string, suffix: string,
                                               x: string, y: string, vy: string)
    requires '{' !in prefix && '{' !in middle && '{' !in suffix
    requires prefix == [] || prefix[0] != '/'
    requires '{' !in y && '}' !in x && '}' !in y && x != y
    ensures BuildSubject("/" + prefix + Placeholder(x) + middle + Placeholder(y) + suffix, [(x, Placeholder(y)), (y, vy)])
            == prefix + vy + middle + vy + suffix
  {
    var px, py := Placeholder(x), Placeholder(y);
    var trimmed := prefix + px + (middle + py + suffix);
    assert SubstituteOne(trimmed, x, py) == Join([prefix, middle, suffix], py) by {
      SubstituteBeforeOther(prefix, middle, suffix, x, py, y);
      JoinThree(prefix, middle, suffix, py);
    }
    assert SubstituteOne(Join([prefix, middle, suffix], py), y, vy) == prefix + vy + middle + vy + suffix by {
      SubstituteOneOfJoin([prefix, middle, suffix], y, vy);
      JoinThree(prefix, middle, suffix, vy);
    }
    assert LTrim("/" + trimmed, '/') == trimmed by {
      assert trimmed[0] == if prefix == [] then px[0] else prefix[0];
      LTrimSingleSlash(trimmed);
    }
    BuildSubjectPair("/" + trimmed, x, py, y, vy);
    RegroupTemplate(prefix, px, middle, py, suffix);
  }

  /**
   The fold is order dependent: a value that introduces `{b}` is rewritten by a
   later `b` parameter, but not by an earlier one.
   */
  lemma ParameterOrderExample()
    ensures BuildSubject("{a}", [("a", "{b}"), ("b", "x")]) == "x"
    ensures BuildSubject("{a}", [("b", "x"), ("a", "{b}")]) == "{b}"
  {
    assert LTrim("{a}", '/') == "{a}";
    assert Placeholder("a") == "{a}" && Placeholder("b") == "{b}";
    assert SubstituteOne("{a}", "a", "{b}") == "{b}" by {
      StrReplaceLeading("{a}", "{b}", []);
      assert "{a}" + [] == "{a}" && "{b}" + [] == "{b}";
    }
    assert SubstituteOne("{b}", "b", "x") == "x" by {
      StrReplaceLeading("{b}", "x", []);
      assert "{b}" + [] == "{b}" && "x" + [] == "x";
    }
    assert SubstituteOne("{a}", "b", "x") == "{a}" by {
      assert !OccursAt("{a}", "{b}", 0);
      StrReplaceAbsent("{b}", "x", "{a}");
    }
  }
}
