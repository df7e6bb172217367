/**
 * The syntax of one line of the recipe file: `c = a + b`.
 *
 * The loader matches each line against the regular expression
 * `^(.*)=(.*)\+(.*)$` and strips the three groups of surrounding whitespace.
 * The groups are greedy and `.` does not match a newline, so a line matches
 * exactly when, after dropping one trailing newline, it holds no newline and
 * some `=` stands before some `+`; the first group then runs up to the last
 * `=` before the last `+`, and the second group up to that last `+`.
 */
module LineSyntax {
  import opened Wrappers

  /** The characters Python's `str.isspace` accepts, which `str.strip()` removes. */
  predicate IsSpace(c: char)
  {
    || ('\t' <= c <= '\r')
    || ('\U{1C}' <= c <= '\U{1F}')
    || c == ' '
    || c == '\U{85}'
    || c == '\U{A0}'
    || c == '\U{1680}'
    || ('\U{2000}' <= c <= '\U{200A}')
    || c == '\U{2028}'
    || c == '\U{2029}'
    || c == '\U{202F}'
    || c == '\U{205F}'
    || c == '\U{3000}'
  }

  /** Neither end of `s` is whitespace. */
  predicate Trimmed(s: string)
  {
    s == [] || (!IsSpace(s[0]) && !IsSpace(s[|s| - 1]))
  }

  /** `s.lstrip()`: the suffix left after the longest all-whitespace prefix. */
  function TrimStart(s: string): (r: string)
    ensures |r| <= |s| && r == s[|s| - |r|..]
    ensures forall i :: 0 <= i < |s| - |r| ==> IsSpace(s[i])
    ensures r == [] || !IsSpace(r[0])
  {
    if s != [] && IsSpace(s[0]) then TrimStart(s[1..]) else s
  }

  /** `s.rstrip()`: the prefix left after the longest all-whitespace suffix. */
  function TrimEnd(s: string): (r: string)
    ensures |r| <= |s| && r == s[..|r|]
    ensures forall i :: |r| <= i < |s| ==> IsSpace(s[i])
    ensures r == [] || !IsSpace(r[|r| - 1])
  {
    if s != [] && IsSpace(s[|s| - 1]) then TrimEnd(s[..|s| - 1]) else s
  }

  /** `s.strip()`: `s` without whitespace at either end. */
  function Strip(s: string): (r: string)
    ensures Trimmed(r) && |r| <= |s|
    ensures r == [] <==> forall i :: 0 <= i < |s| ==> IsSpace(s[i])
  {
    var t := TrimStart(s);
    assert t != [] ==> !IsSpace(t[0]) && TrimEnd(t) != [];
    assert t == [] ==> forall i :: 0 <= i < |s| ==> IsSpace(s[i]);
    assert t != [] ==> !IsSpace(s[|s| - |t|]);
    TrimEnd(t)
  }

  /** Surrounding whitespace, however much, is exactly what strip removes. */
  lemma StripPadded(pre: string, s: string, post: string)
    requires forall i :: 0 <= i < |pre| ==> IsSpace(pre[i])
    requires forall i :: 0 <= i < |post| ==> IsSpace(post[i])
    requires Trimmed(s) && s != []
    ensures Strip(pre + s + post) == s
  {
    var t := s + post;
    assert pre + s + post == pre + t;
    assert t[0] == s[0];
    StripStart(pre, t);
    StripEnd(s, post);
  }

  lemma {:induction false} StripStart(pre: string, s: string)
    requires forall i :: 0 <= i < |pre| ==> IsSpace(pre[i])
    requires s != [] && !IsSpace(s[0])
    ensures TrimStart(pre + s) == s
  {
    if pre != [] {
      assert (pre + s)[1..] == pre[1..] + s;
      StripStart(pre[1..], s);
    }
  }

  lemma {:induction false} StripEnd(s: string, post: string)
    requires forall i :: 0 <= i < |post| ==> IsSpace(post[i])
    requires s != [] && !IsSpace(s[|s| - 1])
    ensures TrimEnd(s + post) == s
  {
    if post != [] {
      assert (s + post)[..|s + post| - 1] == s + post[..|post| - 1];
      StripEnd(s, post[..|post| - 1]);
    }
  }

  /** The index of the last occurrence of `c` in `s`, if any. */
  function LastIndexOf(s: string, c: char): (r: Option<nat>)
    ensures r.None? <==> c !in s
    ensures r.Some? ==> r.value < |s| && s[r.value] == c
    ensures r.Some? ==> forall j :: r.value < j < |s| ==> s[j] != c
  {
    if s == [] then None
    else if s[|s| - 1] == c then Some(|s| - 1)
    else
      assert forall j :: 0 <= j < |s| - 1 ==> s[j] == s[..|s| - 1][j];
      LastIndexOf(s[..|s| - 1], c)
  }

  /** What a matching line says: `product = left + right`, each part stripped. */
  datatype RecipeLine = RecipeLine(product: string, left: string, right: string)

  /** The text the regular expression is matched against: one trailing newline may follow `$`. */
  function Body(line: string): string
  {
    if |line| > 0 && line[|line| - 1] == '\n' then line[..|line| - 1] else line
  }

  /** Some `=` stands before some `+` in `s`. */
  predicate HasEqualsBeforePlus(s: string)
  {
    exists i, j :: 0 <= i < j < |s| && s[i] == '=' && s[j] == '+'
  }

  /**
   * Where the greedy groups end: the last `+` of `s`, and the last `=` before it.
   */
  function SplitPoints(s: string): (r: Option<(nat, nat)>)
    ensures r.None? <==> !HasEqualsBeforePlus(s)
    ensures r.Some? ==> r.value.0 < r.value.1 < |s|
    ensures r.Some? ==> s[r.value.0] == '=' && s[r.value.1] == '+'
    ensures r.Some? ==> forall k :: r.value.1 < k < |s| ==> s[k] != '+'
    ensures r.Some? ==> forall k :: r.value.0 < k < r.value.1 ==> s[k] != '='
  {
    match LastIndexOf(s, '+')
    case None => None
    case Some(j) =>
      match LastIndexOf(s[..j], '=')
      case None =>
        assert forall k :: 0 <= k < j ==> s[k] == s[..j][k];
        None
      case Some(i) =>
        assert forall k :: i < k < j ==> s[k] == s[..j][k];
        Some((i, j))
  }

  /**
   * `re.match(r"^(.*)=(.*)\+(.*)$", line)` followed by stripping the groups:
   * no match exactly when the line holds a newline before its end or no `=`
   * precedes a `+`; otherwise the three stripped groups.
   */
  function ParseLine(line: string): (r: Option<RecipeLine>)
    ensures r.None? <==> '\n' in Body(line) || !HasEqualsBeforePlus(Body(line))
    ensures r.Some? ==> Trimmed(r.value.product) && Trimmed(r.value.left) && Trimmed(r.value.right)
  {
    var s := Body(line);
    if '\n' in s then None
    else
      var p := SplitPoints(s);
      if p.None? then None else Some(Groups(s, p.value.0, p.value.1))
  }

  /** The three groups of `s` split at `i` and `j`, each stripped. */
  function Groups(s: string, i: nat, j: nat): (r: RecipeLine)
    requires i < j < |s|
    ensures Trimmed(r.product) && Trimmed(r.left) && Trimmed(r.right)
  {
    RecipeLine(Strip(s[..i]), Strip(s[i + 1..j]), Strip(s[j + 1..]))
  }

  /** The line `c = a + b` as it is written in the recipe file. */
  function FormatLine(c: string, a: string, b: string): string
  {
    c + " = " + a + " + " + b + "\n"
  }

  /** Names that can stand in a recipe line and read back unchanged. */
  predicate WellFormedName(n: string)
  {
    n != [] && Trimmed(n) && '\n' !in n
  }

  lemma FormatLineBody(c: string, a: string, b: string)
    requires WellFormedName(c) && WellFormedName(a) && WellFormedName(b)
    ensures var s := c + " = " + a + " + " + b;
      && Body(FormatLine(c, a, b)) == s
      && '\n' !in s
  {
    var s := c + " = " + a + " + " + b;
    assert FormatLine(c, a, b) == s + "\n";
    assert (s + "\n")[..|s|] == s;
    assert '\n' !in " = " && '\n' !in " + ";
  }

  lemma {:induction false} FormatLineSplit(c: string, a: string, b: string)
    requires '=' !in a && '+' !in b
    ensures var s := c + " = " + a + " + " + b;
      SplitPoints(s) == Some((|c| + 1, |c| + |a| + 4))
  {
    var s := c + " = " + a + " + " + b;
    var i, j := |c| + 1, |c| + |a| + 4;
    assert s[i] == '=' && s[j] == '+';
    assert HasEqualsBeforePlus(s);
    var r := SplitPoints(s);
    var (i', j') := r.value;
    assert forall k :: j < k < |s| ==> k == j + 1 || s[k] == b[k - j - 2];
    assert forall k :: i < k < j ==> k == i + 1 || k == j - 1 || s[k] == a[k - i - 2];
    assert j' == j;
    assert i' == i;
  }

  /** Every recipe written as a line reads back as the same recipe. */
  lemma ParseFormatLine(c: string, a: string, b: string)
    requires WellFormedName(c) && WellFormedName(a) && WellFormedName(b)
    requires '=' !in a && '+' !in b
    ensures ParseLine(FormatLine(c, a, b)) == Some(RecipeLine(c, a, b))
  {
    FormatLineGroups(c, a, b);
    StripSpacedNames(c, a, b);
  }

  lemma StripSpacedNames(c: string, a: string, b: string)
    requires WellFormedName(c) && WellFormedName(a) && WellFormedName(b)
    ensures Strip(c + " ") == c && Strip(" " + a + " ") == a && Strip(" " + b) == b
  {
    StripSpaceAfter(c);
    StripPadded(" ", a, " ");
    StripSpaceBefore(b);
  }

  lemma StripSpaceAfter(s: string)
    requires Trimmed(s) && s != []
    ensures Strip(s + " ") == s
  {
    assert [] + s + " " == s + " ";
    StripPadded([], s, " ");
  }

  lemma StripSpaceBefore(s: string)
    requires Trimmed(s) && s != []
    ensures Strip(" " + s) == s
  {
    assert " " + s + [] == " " + s;
    StripPadded(" ", s, []);
  }

  lemma FormatLineGroups(c: string, a: string, b: string)
    requires WellFormedName(c) && WellFormedName(a) && WellFormedName(b)
    requires '=' !in a && '+' !in b
    ensures ParseLine(FormatLine(c, a, b))
      == Some(RecipeLine(Strip(c + " "), Strip(" " + a + " "), Strip(" " + b)))
  {
    var s := c + " = " + a + " + " + b;
    var i, j := |c| + 1, |c| + |a| + 4;
    FormatLineBody(c, a, b);
    FormatLineSplit(c, a, b);
    FormatLineParts(c, a, b, s);
    ParseSplitLine(FormatLine(c, a, b), s, i, j, c + " ", " " + a + " ", " " + b);
  }

  lemma ParseSplitLine(line: string, s: string, i: nat, j: nat, p: string, q: string, r: string)
    requires Body(line) == s && '\n' !in s && SplitPoints(s) == Some((i, j))
    requires i < j < |s| && s[..i] == p && s[i + 1..j] == q && s[j + 1..] == r
    ensures ParseLine(line) == Some(RecipeLine(Strip(p), Strip(q), Strip(r)))
  {
    ParseAt(line, s, i, j);
    GroupsOf(s, i, j, p, q, r);
  }

  lemma GroupsOf(s: string, i: nat, j: nat, p: string, q: string, r: string)
    requires i < j < |s| && s[..i] == p && s[i + 1..j] == q && s[j + 1..] == r
    ensures Groups(s, i, j) == RecipeLine(Strip(p), Strip(q), Strip(r))
  {
  }

  /** A line whose body holds no newline and splits at `i` and `j` parses into the stripped groups. */
  lemma ParseAt(line: string, s: string, i: nat, j: nat)
    requires Body(line) == s && '\n' !in s && SplitPoints(s) == Some((i, j))
    ensures i < j < |s|
    ensures ParseLine(line) == Some(Groups(s, i, j))
  {
  }

  lemma FormatLineParts(c: string, a: string, b: string, s: string)
    requires s == c + " = " + a + " + " + b
    ensures |c| + |a| + 4 < |s|
    ensures s[..|c| + 1] == c + " "
    ensures s[|c| + 2..|c| + |a| + 4] == " " + a + " "
    ensures s[|c| + |a| + 5..] == " " + b
  {
    assert s == (c + " ") + ("= " + a + " ") + ("+ " + b);
  }
}
