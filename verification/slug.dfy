/** The article-id generator (`generateId`), defined identically in the API
    server and the command-line tool: lower-case, drop everything but ASCII
    letters, digits, whitespace and hyphens, turn each whitespace run into a
    hyphen, squeeze hyphen runs, and finally `trim()`. */
module Slug {
  import opened Strings

  predicate IsSlugChar(c: char) {
    'a' <= c <= 'z' || '0' <= c <= '9' || c == '-'
  }

  predicate IsAlnum(c: char) {
    'a' <= c <= 'z' || '0' <= c <= '9'
  }

  predicate SlugAlphabet(s: string) {
    forall i | 0 <= i < |s| :: IsSlugChar(s[i])
  }

  predicate NoDoubleHyphen(s: string) {
    forall i | 0 <= i < |s| - 1 :: !(s[i] == '-' && s[i + 1] == '-')
  }

  /** `.replace(/[^a-z0-9\s-]/g, '')`. */
  function StripDisallowed(s: string): (r: string)
    ensures forall i | 0 <= i < |r| :: IsSlugChar(r[i]) || IsSpace(r[i])
  {
    if s == [] then []
    else (if IsSlugChar(s[0]) || IsSpace(s[0]) then [s[0]] else []) + StripDisallowed(s[1..])
  }

  /** `.replace(/\s+/g, '-')`: every maximal run of whitespace becomes one
      hyphen; `inRun` records that the previous character was whitespace. */
  function SpacesToHyphens(s: string, inRun: bool): (r: string)
    requires forall i | 0 <= i < |s| :: IsSlugChar(s[i]) || IsSpace(s[i])
    ensures SlugAlphabet(r)
  {
    if s == [] then []
    else if IsSpace(s[0]) then (if inRun then [] else "-") + SpacesToHyphens(s[1..], true)
    else [s[0]] + SpacesToHyphens(s[1..], false)
  }

  /** `.replace(/-+/g, '-')`: every maximal run of hyphens becomes one hyphen;
      `inRun` records that the previous character was a hyphen. */
  function SqueezeHyphens(s: string, inRun: bool): (r: string)
    requires SlugAlphabet(s)
    ensures SlugAlphabet(r) && NoDoubleHyphen(r)
    ensures inRun ==> r == [] || r[0] != '-'
  {
    if s == [] then []
    else if s[0] == '-' then (if inRun then [] else "-") + SqueezeHyphens(s[1..], true)
    else [s[0]] + SqueezeHyphens(s[1..], false)
  }

  /** `generateId(title)`. Only `[a-z0-9-]` survives and no two hyphens are
      adjacent; a hyphen may still lead or trail, since `trim()` runs after
      whitespace has already become hyphens. */
  function GenerateId(title: string): (r: string)
    ensures SlugAlphabet(r)
    ensures NoDoubleHyphen(r)
  {
    var squeezed := Squeezed(title);
    TrimDoesNothing(squeezed);
    Trim(squeezed)
  }

  /** The id before the final `trim()`. */
  function Squeezed(title: string): (r: string)
    ensures SlugAlphabet(r) && NoDoubleHyphen(r)
  {
    SqueezeHyphens(SpacesToHyphens(StripDisallowed(Lower(title)), false), false)
  }

  /** The final `trim()` is a no-op: no whitespace is left by then. */
  lemma TrimDoesNothing(s: string)
    requires SlugAlphabet(s)
    ensures Trim(s) == s
  {
    assert s != [] ==> IsSlugChar(s[0]) && IsSlugChar(s[|s| - 1]);
    TrimTrimmed(s);
  }

  /** The final `trim()` does not remove edge hyphens: " a " becomes "-a-". */
  lemma EdgeHyphensSurvive()
    ensures GenerateId(" a ") == "-a-"
  {
    assert Lower(" a ") == " a ";
    assert StripDisallowed(" a ") == " a ";
    assert SpacesToHyphens(" a ", false) == "-a-";
    assert SqueezeHyphens("-a-", false) == "-a-";
    assert Squeezed(" a ") == "-a-";
    TrimDoesNothing("-a-");
  }

  /** A title none of whose characters lower-cases to an ASCII letter, a
      digit, a hyphen or whitespace (a Cyrillic title, say) gets the empty
      id; no transliteration takes place. */
  lemma NoLatinGivesEmptyId(title: string)
    requires forall i | 0 <= i < |title| :: !IsSlugChar(LowerChar(title[i])) && !IsSpace(LowerChar(title[i]))
    ensures GenerateId(title) == ""
  {
    StripAllDisallowed(Lower(title));
    TrimDoesNothing("");
  }

  lemma {:induction false} StripAllDisallowed(s: string)
    requires forall i | 0 <= i < |s| :: !IsSlugChar(s[i]) && !IsSpace(s[i])
    ensures StripDisallowed(s) == []
  {
    if s != [] {
      StripAllDisallowed(s[1..]);
    }
  }

  lemma {:induction false} StripKeepsSlug(s: string)
    requires SlugAlphabet(s)
    ensures StripDisallowed(s) == s
  {
    if s != [] {
      StripKeepsSlug(s[1..]);
    }
  }

  lemma {:induction false} SpacesToHyphensNoSpace(s: string, inRun: bool)
    requires SlugAlphabet(s)
    ensures SpacesToHyphens(s, inRun) == s
  {
    if s != [] {
      assert !IsSpace(s[0]);
      SpacesToHyphensNoSpace(s[1..], false);
    }
  }

  lemma {:induction false} SqueezeSqueezed(s: string, inRun: bool)
    requires SlugAlphabet(s) && NoDoubleHyphen(s)
    requires inRun ==> s == [] || s[0] != '-'
    ensures SqueezeHyphens(s, inRun) == s
  {
    if s != [] {
      SqueezeSqueezed(s[1..], s[0] == '-');
    }
  }

  /** `generateId` is idempotent: a generated id regenerates to itself. */
  lemma GenerateIdIdempotent(title: string)
    ensures GenerateId(GenerateId(title)) == GenerateId(title)
  {
    var r := GenerateId(title);
    TrimDoesNothing(Squeezed(title));
    assert Lower(r) == r;
    StripKeepsSlug(r);
    SpacesToHyphensNoSpace(r, false);
    SqueezeSqueezed(r, false);
    TrimDoesNothing(Squeezed(r));
  }

  /** The letters and digits of a text, in order. */
  function Alnums(s: string): string {
    if s == [] then [] else (if IsAlnum(s[0]) then [s[0]] else []) + Alnums(s[1..])
  }

  lemma {:induction false} AlnumsStrip(s: string)
    ensures Alnums(StripDisallowed(s)) == Alnums(s)
  {
    if s != [] {
      AlnumsStrip(s[1..]);
      var head := if IsSlugChar(s[0]) || IsSpace(s[0]) then [s[0]] else [];
      AlnumsConcat(head, StripDisallowed(s[1..]));
    }
  }

  lemma {:induction false} AlnumsSpaces(s: string, inRun: bool)
    requires forall i | 0 <= i < |s| :: IsSlugChar(s[i]) || IsSpace(s[i])
    ensures Alnums(SpacesToHyphens(s, inRun)) == Alnums(s)
  {
    if s != [] {
      if IsSpace(s[0]) {
        AlnumsSpaces(s[1..], true);
        AlnumsConcat(if inRun then [] else "-", SpacesToHyphens(s[1..], true));
      } else {
        AlnumsSpaces(s[1..], false);
      }
    }
  }

  lemma {:induction false} AlnumsSqueeze(s: string, inRun: bool)
    requires SlugAlphabet(s)
    ensures Alnums(SqueezeHyphens(s, inRun)) == Alnums(s)
  {
    if s != [] {
      if s[0] == '-' {
        AlnumsSqueeze(s[1..], true);
        AlnumsConcat(if inRun then [] else "-", SqueezeHyphens(s[1..], true));
      } else {
        AlnumsSqueeze(s[1..], false);
      }
    }
  }

  lemma {:induction false} AlnumsConcat(a: string, b: string)
    ensures Alnums(a + b) == Alnums(a) + Alnums(b)
  {
    if a == [] {
      assert a + b == b;
    } else {
      var h := if IsAlnum(a[0]) then [a[0]] else [];
      assert (a + b)[0] == a[0] && (a + b)[1..] == a[1..] + b;
      assert Alnums(a + b) == h + Alnums(a[1..] + b);
      AlnumsConcat(a[1..], b);
      assert h + (Alnums(a[1..]) + Alnums(b)) == (h + Alnums(a[1..])) + Alnums(b);
    }
  }

  /** Nothing alphanumeric is lost or invented: the letters and digits of the id
      are exactly those of the lower-cased title, in the same order. */
  lemma GenerateIdKeepsAlnums(title: string)
    ensures Alnums(GenerateId(title)) == Alnums(Lower(title))
  {
    var l := Lower(title);
    var a := StripDisallowed(l);
    var b := SpacesToHyphens(a, false);
    AlnumsStrip(l);
    AlnumsSpaces(a, false);
    AlnumsSqueeze(b, false);
    TrimDoesNothing(Squeezed(title));
  }
}
