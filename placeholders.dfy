/** Internal placeholder substitution of `PluginTranslator::translate`: each
    argument `name => value` replaces every `%name%` with PHP's `(string)` of
    the value, through `str_replace`, one argument after another. */
module Placeholders {
  import opened PhpValues

  /** One entry of the `$args` array. */
  datatype Arg = Arg(name: string, value: Scalar)

  function Placeholder(name: string): (p: string)
    ensures |p| == |name| + 2 && p[0] == '%' && p[|p| - 1] == '%' && p[1..|p| - 1] == name
  {
    "%" + name + "%"
  }

  predicate OccursAt(s: string, pat: string, i: nat)
  {
    i + |pat| <= |s| && s[i..i + |pat|] == pat
  }

  predicate Occurs(s: string, pat: string)
  {
    exists i: nat :: i <= |s| && OccursAt(s, pat, i)
  }

  /** PHP's `str_replace(pat, rep, s)` for one non-empty search string: the
      subject is scanned left to right, each occurrence of `pat` is replaced by
      `rep` and scanning resumes after it, so inserted text is never searched. */
  function ReplaceAll(s: string, pat: string, rep: string): string
    requires pat != []
    decreases |s|
  {
    if |s| < |pat| then s
    else if s[..|pat|] == pat then rep + ReplaceAll(s[|pat|..], pat, rep)
    else [s[0]] + ReplaceAll(s[1..], pat, rep)
  }

  /** The template after the loop over the first arguments `args`, in order. */
  function Substitute(t: string, args: seq<Arg>): string
  {
    if args == [] then t
    else
      var last := args[|args| - 1];
      ReplaceAll(Substitute(t, args[..|args| - 1]), Placeholder(last.name), Text(last.value))
  }

  lemma OccursInTail(s: string, pat: string)
    requires |s| > 0
    ensures Occurs(s[1..], pat) ==> Occurs(s, pat)
  {
    if Occurs(s[1..], pat) {
      var j: nat :| j <= |s[1..]| && OccursAt(s[1..], pat, j);
      assert s[1..][j..j + |pat|] == s[j + 1..j + 1 + |pat|];
      assert OccursAt(s, pat, j + 1);
    }
  }

  /** A subject without the search string comes back unchanged. */
  lemma {:induction false} ReplaceAbsentIsIdentity(s: string, pat: string, rep: string)
    requires pat != []
    requires !Occurs(s, pat)
    ensures ReplaceAll(s, pat, rep) == s
    decreases |s|
  {
    if |s| >= |pat| {
      assert !OccursAt(s, pat, 0);
      OccursInTail(s, pat);
      ReplaceAbsentIsIdentity(s[1..], pat, rep);
    }
  }

  /** An occurrence at the front is replaced and the replacement is skipped over,
      whatever it contains. */
  lemma ReplacementNotRescanned(s: string, pat: string, rep: string)
    requires pat != []
    ensures ReplaceAll(pat + s, pat, rep) == rep + ReplaceAll(s, pat, rep)
  {
    assert (pat + s)[..|pat|] == pat;
    assert (pat + s)[|pat|..] == s;
  }

  /** A template in which no argument's placeholder occurs is returned verbatim;
      in particular an empty argument list leaves every template unchanged. */
  lemma {:induction false} UnmatchedTemplateUnchanged(t: string, args: seq<Arg>)
    requires forall k :: 0 <= k < |args| ==> !Occurs(t, Placeholder(args[k].name))
    ensures Substitute(t, args) == t
  {
    if args != [] {
      var last := args[|args| - 1];
      UnmatchedTemplateUnchanged(t, args[..|args| - 1]);
      ReplaceAbsentIsIdentity(t, Placeholder(last.name), Text(last.value));
    }
  }

  /** Text in front of the first occurrence is copied unchanged. */
  lemma {:induction false} ReplaceKeepsLeadingText(a: string, s: string, pat: string, rep: string)
    requires pat != []
    requires forall j: nat :: j < |a| ==> !OccursAt(a + s, pat, j)
    ensures ReplaceAll(a + s, pat, rep) == a + ReplaceAll(s, pat, rep)
    decreases |a|
  {
    if a != [] {
      var t := a + s;
      assert t[1..] == a[1..] + s;
      forall j: nat | j < |a[1..]|
        ensures !OccursAt(a[1..] + s, pat, j)
      {
        assert !OccursAt(t, pat, j + 1);
        if j + 1 + |pat| <= |t| {
          assert t[j + 1..j + 1 + |pat|] == t[1..][j..j + |pat|];
        }
      }
      ReplaceKeepsLeadingText(a[1..], s, pat, rep);
      if |t| < |pat| {
        assert ReplaceAll(s, pat, rep) == s;
        assert ReplaceAll(t, pat, rep) == t;
      } else {
        assert !OccursAt(t, pat, 0);
        assert t[..|pat|] != pat;
        assert ReplaceAll(t, pat, rep) == [t[0]] + ReplaceAll(t[1..], pat, rep);
        assert [t[0]] + (a[1..] + ReplaceAll(s, pat, rep)) == a + ReplaceAll(s, pat, rep);
      }
    } else {
      assert a + s == s;
    }
  }

  /** `"%x% and %x%"` with `x => "%y%"` gives `"%y% and %y%"`: both occurrences
      are replaced and the inserted `%y%` is not expanded further. */
  lemma NonRecursiveExample()
    ensures Substitute("%x% and %x%", [Arg("x", Str("%y%"))]) == "%y% and %y%"
  {
    var args := [Arg("x", Str("%y%"))];
    assert args[..0] == [];
    assert Placeholder("x") == "%x%";
    var middle := " and ";
    assert "%x% and %x%" == "%x%" + (middle + "%x%");
    ReplacementNotRescanned(middle + "%x%", "%x%", "%y%");
    var rest := middle + "%x%";
    forall j: nat | j < |middle|
      ensures !OccursAt(rest, "%x%", j)
    {
      assert middle[j] != '%';
      assert rest[j..j + 3][0] == middle[j];
    }
    ReplaceKeepsLeadingText(middle, "%x%", "%x%", "%y%");
    assert "%x%" == "%x%" + "";
    ReplacementNotRescanned("", "%x%", "%y%");
    assert "%y%" + (middle + "%y%") == "%y% and %y%";
  }

  /** Arguments are applied in order: with `a => "%b%"` first, a later `b`
      expands what `a` inserted; in the other order it does not. */
  lemma ArgumentOrderMatters()
    ensures Substitute("%a%", [Arg("a", Str("%b%")), Arg("b", Str("x"))]) == "x"
    ensures Substitute("%a%", [Arg("b", Str("x")), Arg("a", Str("%b%"))]) == "%b%"
  {
    assert Placeholder("a") == "%a%";
    assert Placeholder("b") == "%b%";
    assert "%a%" == "%a%" + "";
    assert "%b%" == "%b%" + "";
    ReplacementNotRescanned("", "%a%", "%b%");
    ReplacementNotRescanned("", "%b%", "x");
    var ab := [Arg("a", Str("%b%")), Arg("b", Str("x"))];
    assert ab[..1][..0] == [];
    assert ab[..1] == [Arg("a", Str("%b%"))];
    var ba := [Arg("b", Str("x")), Arg("a", Str("%b%"))];
    assert ba[..1][..0] == [];
    assert ba[..1] == [Arg("b", Str("x"))];
    assert !Occurs("%a%", "%b%");
    ReplaceAbsentIsIdentity("%a%", "%b%", "x");
  }
}
