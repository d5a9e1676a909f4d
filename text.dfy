/**
 * The string normalisation the duplicate-name and duplicate-ISBN checks
 * use: `s.Trim().ToUpper()`, restricted to ASCII white space and letters.
 */
module Text {

  /** The ASCII characters `char.IsWhiteSpace` accepts. */
  predicate IsWhiteSpace(c: char) {
    c == ' ' || c == '\t' || c == '\n' || c == '\r' || c == '\U{000B}' || c == '\U{000C}'
  }

  ghost predicate AllWhiteSpace(s: string) {
    forall i | 0 <= i < |s| :: IsWhiteSpace(s[i])
  }

  /** `TrimStart()` */
  function TrimStart(s: string): string {
    if |s| > 0 && IsWhiteSpace(s[0]) then TrimStart(s[1..]) else s
  }

  /** `TrimEnd()` */
  function TrimEnd(s: string): string {
    if |s| > 0 && IsWhiteSpace(s[|s| - 1]) then TrimEnd(s[..|s| - 1]) else s
  }

  /** `Trim()` */
  function Trim(s: string): string {
    TrimEnd(TrimStart(s))
  }

  function UpperChar(c: char): char {
    if 'a' <= c <= 'z' then (c as int - 32) as char else c
  }

  /** `ToUpper()` on ASCII letters */
  function ToUpper(s: string): string {
    seq(|s|, i requires 0 <= i < |s| => UpperChar(s[i]))
  }

  /** The key under which two names or ISBNs count as the same. */
  function Norm(s: string): string {
    ToUpper(Trim(s))
  }

  // ---------------------------------------------------------------------
  // What trimming removes

  /** `TrimStart` removes exactly the leading run of white space. */
  lemma {:induction false} TrimStartRemovesLeadingSpace(s: string)
    ensures var r := TrimStart(s);
      |r| <= |s| && r == s[|s| - |r|..] &&
      AllWhiteSpace(s[..|s| - |r|]) &&
      (r == [] || !IsWhiteSpace(r[0]))
  {
    if |s| > 0 && IsWhiteSpace(s[0]) {
      TrimStartRemovesLeadingSpace(s[1..]);
      var r := TrimStart(s[1..]);
      assert s[..|s| - |r|] == [s[0]] + s[1..][..|s| - 1 - |r|];
    }
  }

  /** `TrimEnd` removes exactly the trailing run of white space. */
  lemma {:induction false} TrimEndRemovesTrailingSpace(s: string)
    ensures var r := TrimEnd(s);
      |r| <= |s| && r == s[..|r|] &&
      AllWhiteSpace(s[|r|..]) &&
      (r == [] || !IsWhiteSpace(r[|r| - 1]))
  {
    if |s| > 0 && IsWhiteSpace(s[|s| - 1]) {
      var p := s[..|s| - 1];
      TrimEndRemovesTrailingSpace(p);
      var r := TrimEnd(p);
      assert s[|r|..] == p[|r|..] + [s[|s| - 1]];
    }
  }

  lemma {:induction false} TrimStartPadding(pre: string, s: string)
    requires AllWhiteSpace(pre)
    ensures TrimStart(pre + s) == TrimStart(s)
    decreases |pre|
  {
    if pre != [] {
      var rest := pre[1..];
      assert (pre + s)[0] == pre[0];
      assert (pre + s)[1..] == rest + s;
      assert AllWhiteSpace(rest) by {
        forall i | 0 <= i < |rest| ensures IsWhiteSpace(rest[i]) {
          assert rest[i] == pre[i + 1];
        }
      }
      TrimStartPadding(rest, s);
    } else {
      assert pre + s == s;
    }
  }

  lemma {:induction false} TrimEndPadding(s: string, post: string)
    requires AllWhiteSpace(post)
    ensures TrimEnd(s + post) == TrimEnd(s)
    decreases |post|
  {
    if post != [] {
      var p := post[..|post| - 1];
      assert (s + post)[|s + post| - 1] == post[|post| - 1];
      assert (s + post)[..|s + post| - 1] == s + p;
      assert AllWhiteSpace(p) by {
        forall i | 0 <= i < |p| ensures IsWhiteSpace(p[i]) {
          assert p[i] == post[i];
        }
      }
      TrimEndPadding(s, p);
    } else {
      assert s + post == s;
    }
  }

  // ---------------------------------------------------------------------
  // Properties of the normalisation

  /** Leading and trailing white space never matter. */
  lemma NormIgnoresPadding(pre: string, s: string, post: string)
    requires AllWhiteSpace(pre) && AllWhiteSpace(post)
    ensures Norm(pre + s + post) == Norm(s)
  {
    assert pre + s + post == pre + (s + post);
    TrimStartPadding(pre, s + post);
    TrimStartRemovesLeadingSpace(s);
    var t := TrimStart(s);
    var d := |s| - |t|;
    assert s[..d] + (t + post) == s + post;
    TrimStartPadding(s[..d], t + post);
    if t == [] {
      assert t + post == post + [];
      TrimStartPadding(post, []);
    } else {
      assert (t + post)[0] == t[0];
      TrimEndPadding(t, post);
    }
  }

  lemma TrimmedIsFixed(s: string)
    requires s == [] || (!IsWhiteSpace(s[0]) && !IsWhiteSpace(s[|s| - 1]))
    ensures Trim(s) == s
  {
  }

  /** Trimming once is enough. */
  lemma TrimIdempotent(s: string)
    ensures Trim(Trim(s)) == Trim(s)
  {
    TrimStartRemovesLeadingSpace(s);
    var a := TrimStart(s);
    TrimEndRemovesTrailingSpace(a);
    var b := TrimEnd(a);
    if b != [] {
      assert b[0] == a[0];
    }
    TrimmedIsFixed(b);
  }

  lemma {:induction false} TrimStartUpper(s: string)
    ensures TrimStart(ToUpper(s)) == ToUpper(TrimStart(s))
    decreases |s|
  {
    if |s| > 0 {
      assert ToUpper(s)[0] == UpperChar(s[0]);
      assert ToUpper(s)[1..] == ToUpper(s[1..]);
      TrimStartUpper(s[1..]);
    }
  }

  lemma {:induction false} TrimEndUpper(s: string)
    ensures TrimEnd(ToUpper(s)) == ToUpper(TrimEnd(s))
    decreases |s|
  {
    if |s| > 0 {
      assert ToUpper(s)[|s| - 1] == UpperChar(s[|s| - 1]);
      assert ToUpper(s)[..|s| - 1] == ToUpper(s[..|s| - 1]);
      TrimEndUpper(s[..|s| - 1]);
    }
  }

  lemma UpperIdempotent(s: string)
    ensures ToUpper(ToUpper(s)) == ToUpper(s)
  {
  }

  /** Trimming and upper-casing commute. */
  lemma TrimUpper(s: string)
    ensures Trim(ToUpper(s)) == ToUpper(Trim(s))
  {
    TrimStartUpper(s);
    TrimEndUpper(TrimStart(s));
  }

  /** Letter case never matters: upper-casing first changes nothing. */
  lemma NormIgnoresCase(s: string)
    ensures Norm(ToUpper(s)) == Norm(s)
  {
    TrimUpper(s);
    UpperIdempotent(Trim(s));
  }

  /** Normalising a normalised key changes nothing. */
  lemma NormIdempotent(s: string)
    ensures Norm(Norm(s)) == Norm(s)
  {
    TrimUpper(Trim(s));
    TrimIdempotent(s);
    UpperIdempotent(Trim(s));
  }

  /** The normalisation is not the identity: "france " and "France" clash. */
  lemma PaddedLowerCaseClashes()
    ensures Norm("france ") == Norm("France")
    ensures "france " != "France"
  {
    assert AllWhiteSpace(" ");
    assert "france " == [] + "france" + " ";
    NormIgnoresPadding([], "france", " ");
    TrimmedIsFixed("france");
    TrimmedIsFixed("France");
    assert ToUpper("france") == "FRANCE";
    assert ToUpper("France") == "FRANCE";
  }
}
