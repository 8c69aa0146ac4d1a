/**
 * The SSML presence check: `/<speak>[\s\S]*<\/speak>/.test(ssml)`, true when a
 * literal `<speak>` is followed, anywhere later, by a literal `</speak>`.
 */
module Ssml {
  import opened Options
  import opened GlobalReplace

  const OpenTag: string := "<speak>"
  const CloseTag: string := "</speak>"

  /**
   * `validateSSML`. The regex engine tries the leftmost `<speak>` first, and
   * `[\s\S]*` can reach any later `</speak>`; a later `<speak>` leaves less
   * room, so the leftmost one decides.
   */
  function ValidateSsml(ssml: string): bool {
    match FindFrom(ssml, OpenTag, 0)
    case None => false
    case Some(i) => i + |OpenTag| <= |ssml| && FindFrom(ssml, CloseTag, i + |OpenTag|).Some?
  }

  /** What the pattern means: a `<speak>`, and a `</speak>` starting at or after its end. */
  predicate Framed(s: string, i: nat, j: nat) {
    StartsWithAt(s, i, OpenTag) && i + |OpenTag| <= j && StartsWithAt(s, j, CloseTag)
  }

  /** The check holds exactly when the text has a `<speak>` and a `</speak>` after it. */
  lemma ValidateSsmlIff(s: string)
    ensures ValidateSsml(s) <==> exists i: nat, j: nat :: Framed(s, i, j)
  {
    if ValidateSsml(s) {
      var i := FindFrom(s, OpenTag, 0).value;
      var j := FindFrom(s, CloseTag, i + |OpenTag|).value;
      assert Framed(s, i, j);
    }
    if exists i: nat, j: nat :: Framed(s, i, j) {
      var i: nat, j: nat :| Framed(s, i, j);
      var first := FindFrom(s, OpenTag, 0);
      assert first.Some?;
      var i0 := first.value;
      assert i0 <= i;
      assert j <= |s|;
      assert FindFrom(s, CloseTag, i0 + |OpenTag|).Some?;
    }
  }

  lemma StartsWithInContext(p: string, s: string, q: string, i: nat, t: string)
    requires StartsWithAt(s, i, t)
    ensures StartsWithAt(p + s + q, |p| + i, t)
  {
    assert (p + s + q)[|p| + i..|p| + i + |t|] == s[i..i + |t|];
  }

  /** The pattern is not anchored: text around a valid document keeps it valid. */
  lemma ValidateSsmlUnanchored(p: string, s: string, q: string)
    requires ValidateSsml(s)
    ensures ValidateSsml(p + s + q)
  {
    ValidateSsmlIff(s);
    var i: nat, j: nat :| Framed(s, i, j);
    StartsWithInContext(p, s, q, i, OpenTag);
    StartsWithInContext(p, s, q, j, CloseTag);
    assert Framed(p + s + q, |p| + i, |p| + j);
    ValidateSsmlIff(p + s + q);
  }

  /** Without a literal `<speak>` the check fails, whatever else the markup holds. */
  lemma NoOpenTagNoSsml(s: string)
    requires forall i :: 0 <= i <= |s| ==> !StartsWithAt(s, i, OpenTag)
    ensures !ValidateSsml(s)
  {
  }

  /** A document made of the two tags around any body is valid. */
  lemma WrappedBodyValid(body: string)
    ensures ValidateSsml(OpenTag + body + CloseTag)
  {
    var s := OpenTag + body + CloseTag;
    assert s[0..|OpenTag|] == OpenTag;
    assert s[|OpenTag| + |body|..|s|] == CloseTag;
    assert Framed(s, 0, |OpenTag| + |body|);
    ValidateSsmlIff(s);
  }

  /** `t` is not found at `i` when its `k`-th character differs from the text's. */
  lemma MismatchAt(s: string, i: nat, t: string, k: nat)
    requires k < |t| && i + k < |s| && s[i + k] != t[k]
    ensures !StartsWithAt(s, i, t)
  {
    if i + |t| <= |s| {
      assert s[i..i + |t|][k] == s[i + k];
    }
  }

  /** The empty text fails and the shortest document passes. */
  lemma SsmlExamples()
    ensures !ValidateSsml("")
    ensures ValidateSsml("<speak></speak>")
  {
    WrappedBodyValid("");
    assert OpenTag + "" + CloseTag == "<speak></speak>";
  }

  /** The check is order-sensitive: a closing tag before the opening one does not count. */
  lemma ClosingBeforeOpeningExample()
    ensures !ValidateSsml("</speak><speak>")
  {
    var s := "</speak><speak>";
    forall p | 0 <= p < 8 ensures !StartsWithAt(s, p, OpenTag) {
      if p == 0 {
        MismatchAt(s, 0, OpenTag, 1);
      } else {
        MismatchAt(s, p, OpenTag, 0);
      }
    }
    assert s[8..15] == OpenTag;
    assert FindFrom(s, OpenTag, 0) == Some(8);
    assert FindFrom(s, CloseTag, 15) == None;
  }

  /** The pattern spans line breaks: `[\s\S]` matches every character. */
  lemma MultiLineExample()
    ensures ValidateSsml("<speak>" + "\n  <prosody pitch=\"+10%\" rate=\"110%\" volume=\"+2dB\">\n    Hello world\n  </prosody>\n" + "</speak>")
  {
    WrappedBodyValid("\n  <prosody pitch=\"+10%\" rate=\"110%\" volume=\"+2dB\">\n    Hello world\n  </prosody>\n");
  }

  /** A text lacking one of the characters of `t` has no occurrence of `t`. */
  lemma MissingCharNoOccurrence(s: string, t: string, k: nat)
    requires k < |t| && t[k] !in s
    ensures forall i :: 0 <= i <= |s| ==> !StartsWithAt(s, i, t)
  {
    forall i | 0 <= i <= |s| ensures !StartsWithAt(s, i, t) {
      if i + |t| <= |s| {
        assert s[i..i + |t|][k] == s[i + k];
      }
    }
  }

  /** Prosody markup alone, with no `<speak>`, is rejected (it has no `k` at all). */
  lemma ProsodyOnlyExample()
    ensures !ValidateSsml("<prosody pitch=\"+10%\">Hello</prosody>")
  {
    var s := "<prosody pitch=\"+10%\">Hello</prosody>";
    assert OpenTag[5] == 'k';
    assert 'k' !in s;
    MissingCharNoOccurrence(s, OpenTag, 5);
  }

  /** An opening tag with attributes is no `<speak>`. */
  lemma OpeningTagWithAttributesExample()
    ensures !ValidateSsml("<speak version=\"1.0\">Hello</speak>")
  {
    var s := "<speak version=\"1.0\">Hello</speak>";
    assert OpenTag[6] == '>';
    forall i | 0 <= i <= |s| ensures !StartsWithAt(s, i, OpenTag) {
      if i + 7 <= |s| {
        if s[i] == '<' {
          if i == 0 {
            MismatchAt(s, 0, OpenTag, 6);
          } else {
            MismatchAt(s, i, OpenTag, 1);
          }
        } else {
          MismatchAt(s, i, OpenTag, 0);
        }
      }
    }
  }
}
