/**
 The two PHP string built-ins the CSRF access check relies on, over strings
 modelled as `seq<char>`:
 - `LTrim(s, c)` is `ltrim($s, $c)` for a single character: it removes every
   leading copy of `c`, not just the first;
 - `StrReplace(search, replace, subject)` is `str_replace` with scalar
   arguments: it scans left to right, replaces each non-overlapping occurrence
   of `search`, and never rescans the text it has just inserted.
 */
module PhpStrings {

  /** `needle` occurs in `s` starting at index `i`. */
  predicate OccursAt(s: string, needle: string, i: nat) {
    i + |needle| <= |s| && s[i..i + |needle|] == needle
  }

  /** `needle` occurs somewhere in `s`. */
  predicate Contains(s: string, needle: string) {
    exists i: nat | i <= |s| :: OccursAt(s, needle, i)
  }

  /** `ltrim($s, $c)`: `s` without its maximal run of leading `c`s. */
  function LTrim(s: string, c: char): (r: string)
    ensures |r| <= |s| && r == s[|s| - |r|..]
    ensures forall i :: 0 <= i < |s| - |r| ==> s[i] == c
    ensures r == [] || r[0] != c
  {
    if |s| > 0 && s[0] == c then LTrim(s[1..], c) else s
  }

  /** Trimming is idempotent: a trimmed string is left alone. */
  lemma LTrimIdempotent(s: string, c: char)
    ensures LTrim(LTrim(s, c), c) == LTrim(s, c)
  {
  }

  /** Trimming only removes characters: everything in the result was in the input. */
  lemma LTrimKeepsChars(s: string, c: char, x: char)
    ensures x in LTrim(s, c) ==> x in s
  {
  }

  /**
   The three facts LTrim promises pin its result down: any suffix `r` of `s`
   that is preceded only by `c`s and does not itself start with `c` is the
   trimmed string, and conversely.
   */
  lemma LTrimCharacterization(s: string, c: char, r: string)
    ensures r == LTrim(s, c) <==>
              && |r| <= |s| && r == s[|s| - |r|..]
              && (forall i :: 0 <= i < |s| - |r| ==> s[i] == c)
              && (r == [] || r[0] != c)
  {
  }

  /**
   `str_replace($search, $replace, $subject)` for a non-empty `search`: the
   leftmost occurrence is replaced, and scanning resumes just after it in the
   original subject, so inserted text is never examined again. A replacement no
   longer than the search string never lengthens the subject, and one no
   shorter never shortens it. `StrReplaceFirst` and `StrReplaceAbsent` below
   together pin the result down completely.
   */
  function StrReplace(search: string, replace: string, subject: string): (r: string)
    requires |search| > 0
    ensures |replace| <= |search| ==> |r| <= |subject|
    ensures |replace| >= |search| ==> |r| >= |subject|
    decreases |subject|
  {
    if |subject| < |search| then subject
    else if subject[..|search|] == search then replace + StrReplace(search, replace, subject[|search|..])
    else [subject[0]] + StrReplace(search, replace, subject[1..])
  }

  /** An occurrence in `s[1..]` is an occurrence in `s`, one index later. */
  lemma OccursAtShift(s: string, needle: string, i: nat)
    requires |s| > 0
    ensures OccursAt(s[1..], needle, i) <==> OccursAt(s, needle, i + 1)
  {
  }

  /** An occurrence at index `j` of `s` is an occurrence at the start of `s[j..]`. */
  lemma OccursAtDrop(s: string, needle: string, j: nat)
    requires j <= |s|
    ensures OccursAt(s, needle, j) <==> OccursAt(s[j..], needle, 0)
  {
  }

  /** A string without the needle's first character cannot contain the needle. */
  lemma FirstCharAbsent(s: string, needle: string)
    requires |needle| > 0 && needle[0] !in s
    ensures !Contains(s, needle)
  {
  }

  /** No occurrence can start inside a prefix that lacks the needle's first character. */
  lemma FirstCharAbsentPrefix(prefix: string, rest: string, needle: string)
    requires |needle| > 0 && needle[0] !in prefix
    ensures forall j: nat :: j < |prefix| ==> !OccursAt(prefix + rest, needle, j)
  {
    forall j: nat | j < |prefix|
      ensures !OccursAt(prefix + rest, needle, j)
    {
      assert (prefix + rest)[j] == prefix[j];
    }
  }

  /** A subject that `str_replace` changes contains the search string. */
  lemma {:induction false} StrReplaceUnchangedOrContains(search: string, replace: string, subject: string)
    requires |search| > 0
    ensures StrReplace(search, replace, subject) == subject || Contains(subject, search)
    decreases |subject|
  {
    if |subject| < |search| {
    } else if subject[..|search|] == search {
      assert OccursAt(subject, search, 0);
    } else {
      var tail := subject[1..];
      StrReplaceUnchangedOrContains(search, replace, tail);
      if StrReplace(search, replace, tail) == tail {
        assert [subject[0]] + tail == subject;
      } else {
        var i: nat :| OccursAt(tail, search, i);
        OccursAtShift(subject, search, i);
      }
    }
  }

  /** When the search string is absent, `str_replace` returns the subject unchanged. */
  lemma StrReplaceAbsent(search: string, replace: string, subject: string)
    requires |search| > 0
    requires !Contains(subject, search)
    ensures StrReplace(search, replace, subject) == subject
  {
    StrReplaceUnchangedOrContains(search, replace, subject);
  }

  /** Replacing a string by itself changes nothing. */
  lemma {:induction false} StrReplaceSelf(search: string, subject: string)
    requires |search| > 0
    ensures StrReplace(search, search, subject) == subject
    decreases |subject|
  {
    if |subject| < |search| {
    } else if subject[..|search|] == search {
      StrReplaceSelf(search, subject[|search|..]);
      assert search + subject[|search|..] == subject;
    } else {
      StrReplaceSelf(search, subject[1..]);
      assert [subject[0]] + subject[1..] == subject;
    }
  }

  /** A subject that contains the search string is changed by a different replacement. */
  lemma {:induction false} StrReplaceChanges(search: string, replace: string, subject: string)
    requires |search| > 0
    ensures !Contains(subject, search) || replace == search
            || StrReplace(search, replace, subject) != subject
    decreases |subject|
  {
    if |subject| < |search| {
      forall i: nat
        ensures !OccursAt(subject, search, i)
      {
      }
    } else if subject[..|search|] == search {
      var rest := subject[|search|..];
      var out := StrReplace(search, replace, subject);
      assert out == replace + StrReplace(search, replace, rest);
      assert subject == search + rest;
      if |replace| == |search| && replace != search {
        assert out[..|search|] == replace;
      }
    } else {
      var tail := subject[1..];
      StrReplaceChanges(search, replace, tail);
      assert subject == [subject[0]] + tail;
      if !Contains(tail, search) {
        forall i: nat
          ensures !OccursAt(subject, search, i)
        {
          if i > 0 {
            OccursAtShift(subject, search, i - 1);
          }
        }
      }
    }
  }

  /**
   `str_replace` is the identity exactly when the search string is absent or
   is replaced by itself.
   */
  lemma StrReplaceIdentityIff(search: string, replace: string, subject: string)
    requires |search| > 0
    ensures StrReplace(search, replace, subject) == subject
            <==> !Contains(subject, search) || replace == search
  {
    StrReplaceUnchangedOrContains(search, replace, subject);
    StrReplaceChanges(search, replace, subject);
    if replace == search {
      StrReplaceSelf(search, subject);
    }
  }

  /** A prefix in which no occurrence starts is copied through untouched. */
  lemma {:induction false} StrReplaceSkipsPrefix(search: string, replace: string, prefix: string, rest: string)
    requires |search| > 0
    requires forall j: nat :: j < |prefix| ==> !OccursAt(prefix + rest, search, j)
    ensures StrReplace(search, replace, prefix + rest) == prefix + StrReplace(search, replace, rest)
    decreases |prefix|
  {
    var s := prefix + rest;
    if |prefix| == 0 {
      assert s == rest;
    } else if |s| < |search| {
      assert StrReplace(search, replace, rest) == rest;
    } else {
      assert s[..|search|] != search by {
        assert !OccursAt(s, search, 0);
      }
      assert s[1..] == prefix[1..] + rest;
      forall j: nat | j < |prefix| - 1
        ensures !OccursAt(prefix[1..] + rest, search, j)
      {
        OccursAtShift(s, search, j);
      }
      StrReplaceSkipsPrefix(search, replace, prefix[1..], rest);
      assert [prefix[0]] + (prefix[1..] + StrReplace(search, replace, rest))
          == prefix + StrReplace(search, replace, rest);
    }
  }

  /** A leading occurrence is replaced and scanning resumes after it. */
  lemma StrReplaceLeading(search: string, replace: string, rest: string)
    requires |search| > 0
    ensures StrReplace(search, replace, search + rest) == replace + StrReplace(search, replace, rest)
  {
  }

  /**
   The leftmost occurrence is the one replaced: the text before it is copied,
   and scanning resumes right after it.
   */
  lemma StrReplaceFirst(search: string, replace: string, s: string, i: nat)
    requires |search| > 0 && OccursAt(s, search, i)
    requires forall j: nat :: j < i ==> !OccursAt(s, search, j)
    ensures StrReplace(search, replace, s) == s[..i] + replace + StrReplace(search, replace, s[i + |search|..])
  {
    var prefix, rest := s[..i], s[i + |search|..];
    SplitAtOccurrence(s, search, i);
    assert StrReplace(search, replace, s) == prefix + StrReplace(search, replace, search + rest) by {
      assert forall j: nat :: j < |prefix| ==> !OccursAt(prefix + (search + rest), search, j);
      StrReplaceSkipsPrefix(search, replace, prefix, search + rest);
    }
    var tail := StrReplace(search, replace, rest);
    assert StrReplace(search, replace, search + rest) == replace + tail by {
      StrReplaceLeading(search, replace, rest);
    }
    assert prefix + (replace + tail) == prefix + replace + tail;
  }

  /** A string splits around an occurrence into the text before, the needle, and the text after. */
  lemma SplitAtOccurrence(s: string, needle: string, i: nat)
    requires OccursAt(s, needle, i)
    ensures s == s[..i] + (needle + s[i + |needle|..])
  {
    assert s == s[..i] + s[i..i + |needle|] + s[i + |needle|..];
  }

  /** A single occurrence after an occurrence-free prefix becomes the replacement. */
  lemma StrReplaceOnce(search: string, replace: string, prefix: string, rest: string)
    requires |search| > 0
    requires forall j: nat :: j < |prefix| ==> !OccursAt(prefix + search + rest, search, j)
    requires !Contains(rest, search)
    ensures StrReplace(search, replace, prefix + search + rest) == prefix + replace + rest
  {
    var s := prefix + search + rest;
    assert s == prefix + (search + rest);
    assert StrReplace(search, replace, s) == prefix + StrReplace(search, replace, search + rest) by {
      StrReplaceSkipsPrefix(search, replace, prefix, search + rest);
    }
    assert StrReplace(search, replace, search + rest) == replace + rest by {
      StrReplaceLeading(search, replace, rest);
      StrReplaceAbsent(search, replace, rest);
    }
    assert prefix + (replace + rest) == prefix + replace + rest;
  }

  /** `parts` glued together with `sep` between consecutive parts. */
  function Join(parts: seq<string>, sep: string): (r: string)
    requires |parts| > 0
    decreases |parts|
  {
    if |parts| == 1 then parts[0] else parts[0] + sep + Join(parts[1..], sep)
  }

  /**
   No occurrence starts inside `piece` when it is followed by nothing or by
   another occurrence, provided none lies within `piece` and the first
   `|search| - 1` characters of the search string: a match starting in `piece`
   ends no later than that.
   */
  lemma NoOccurrenceStartsIn(search: string, piece: string, rest: string)
    requires |search| > 0
    requires !Contains(piece + search[..|search| - 1], search)
    requires rest == [] || (|search| <= |rest| && rest[..|search|] == search)
    ensures forall j: nat :: j < |piece| ==> !OccursAt(piece + rest, search, j)
  {
    var n := |search|;
    var s, t := piece + rest, piece + search[..n - 1];
    forall j: nat | j < |piece|
      ensures !OccursAt(s, search, j)
    {
      assert !OccursAt(t, search, j);
      if j + n <= |s| {
        assert s[j..j + n] == t[j..j + n] by {
          forall k | j <= k < j + n
            ensures s[k] == t[k]
          {
            if k >= |piece| {
              assert s[k] == rest[..n][k - |piece|];
            }
          }
        }
      }
    }
  }

  /** A piece without the search string's first character meets the condition above. */
  lemma FirstCharAbsentPiece(search: string, piece: string)
    requires |search| > 0 && search[0] !in piece
    ensures !Contains(piece + search[..|search| - 1], search)
  {
    var t := piece + search[..|search| - 1];
    forall j: nat | j <= |t|
      ensures !OccursAt(t, search, j)
    {
      if j < |piece| {
        assert t[j] == piece[j];
      }
    }
  }

  /**
   Every occurrence is replaced, not just the first: when no occurrence lies
   inside a piece or straddles its end, each separating occurrence becomes the
   replacement. The replacement text itself may contain anything, including
   the search string, since it is not rescanned.
   */
  lemma {:induction false} StrReplaceEveryOccurrence(search: string, replace: string, parts: seq<string>)
    requires |search| > 0 && |parts| > 0
    requires forall k :: 0 <= k < |parts| ==> !Contains(parts[k] + search[..|search| - 1], search)
    ensures StrReplace(search, replace, Join(parts, search)) == Join(parts, replace)
    decreases |parts|
  {
    if |parts| == 1 {
      NoOccurrenceStartsIn(search, parts[0], []);
      StrReplaceSkipsPrefix(search, replace, parts[0], []);
      assert parts[0] + [] == parts[0];
    } else {
      var tail := Join(parts[1..], search);
      assert Join(parts, search) == parts[0] + (search + tail);
      assert (search + tail)[..|search|] == search;
      NoOccurrenceStartsIn(search, parts[0], search + tail);
      StrReplaceSkipsPrefix(search, replace, parts[0], search + tail);
      StrReplaceLeading(search, replace, tail);
      StrReplaceEveryOccurrence(search, replace, parts[1..]);
      assert Join(parts, replace) == parts[0] + (replace + Join(parts[1..], replace));
    }
  }
}
