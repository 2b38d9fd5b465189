/**
 * The string matching of `keep_col_match`: each filter string is compiled with Python's `re` and
 * applied with `re.match`, which anchors at position 0 only.
 *
 *  - On the model, scenario and region axes the string is compiled as it is, with no end anchor,
 *    so a pattern matches every string it is a prefix of ("m1" matches "m10").
 *  - On the variable axis `|` is escaped, each `*` becomes `.*` and `$` is appended.
 *
 * Only a fragment of the regular-expression language is modelled: literal characters, `.*`, and
 * the end anchor `$`. Python's `.` does not match a newline, and its `$` matches at the end of the
 * string or just before a newline that ends it; both are modelled as Python has them. Strings
 * that would carry any other regular-expression meaning are excluded by `Supported`.
 */
module Patterns {

  /** The characters that have a meaning of their own in Python's `re` syntax. */
  const Metacharacters: set<char> :=
    {'.', '^', '$', '*', '+', '?', '{', '}', '[', ']', '\\', '|', '(', ')'}

  /** A model, scenario or region filter string in which every character stands for itself. */
  predicate LiteralPattern(p: string) {
    forall i :: 0 <= i < |p| ==> p[i] !in Metacharacters
  }

  /** A variable filter string: literal characters, `|` (escaped before compiling) and `*`. */
  predicate VariablePattern(p: string) {
    forall i :: 0 <= i < |p| ==> p[i] == '*' || p[i] == '|' || p[i] !in Metacharacters
  }

  predicate Supported(p: string, pseudoRegex: bool) {
    if pseudoRegex then VariablePattern(p) else LiteralPattern(p)
  }

  /** One element of a compiled pattern: a character that must match, or `.*`. */
  datatype Token = Char(c: char) | AnyRun

  /** The regular expression a model, scenario or region string compiles to: its characters. */
  function CompileLiteral(p: string): (r: seq<Token>)
    ensures |r| == |p|
    ensures forall i :: 0 <= i < |p| ==> r[i] == Char(p[i])
  {
    seq(|p|, i requires 0 <= i < |p| => Char(p[i]))
  }

  /** `s.replace('|', '\\|').replace('*', '.*')`, before the `$` that `anchored` stands for. */
  function CompileVariable(p: string): (r: seq<Token>)
    ensures |r| == |p|
    ensures forall i :: 0 <= i < |p| ==> (r[i] == AnyRun <==> p[i] == '*')
    ensures forall i :: 0 <= i < |p| && p[i] != '*' ==> r[i] == Char(p[i])
  {
    seq(|p|, i requires 0 <= i < |p| => if p[i] == '*' then AnyRun else Char(p[i]))
  }

  /**
   * Whether the tokens match at the start of `s` (what `re.match` tests). With `anchored`, the
   * pattern ends in `$`, which accepts the end of the string or a final newline.
   */
  function MatchHere(toks: seq<Token>, s: string, anchored: bool): (r: bool)
    decreases |toks|, |s|, anchored
    ensures r && anchored ==> MatchHere(toks, s, false)
  {
    if toks == [] then !anchored || s == "" || s == "\n"
    else match toks[0]
      case Char(c) => |s| > 0 && s[0] == c && MatchHere(toks[1..], s[1..], anchored)
      case AnyRun =>
        MatchHere(toks[1..], s, anchored) || (|s| > 0 && s[0] != '\n' && MatchHere(toks, s[1..], anchored))
  }

  /**
   * `re.compile(p).match(s)` for the compiled form of filter string `p` on its axis. An empty
   * filter string matches every value on the model, scenario and region axes, and on the variable
   * axis only the empty name (or a lone newline).
   */
  predicate Matches(p: string, s: string, pseudoRegex: bool)
    requires Supported(p, pseudoRegex)
    ensures p == "" ==> (Matches(p, s, pseudoRegex) <==> !pseudoRegex || s == "" || s == "\n")
  {
    if pseudoRegex then MatchHere(CompileVariable(p), s, true)
    else MatchHere(CompileLiteral(p), s, false)
  }

  /** A literal head of a pattern consumes exactly its own characters from the start of `s`. */
  lemma {:induction false} LiteralHead(q: string, rest: seq<Token>, s: string, anchored: bool)
    ensures MatchHere(CompileLiteral(q) + rest, s, anchored) <==> q <= s && MatchHere(rest, s[|q|..], anchored)
  {
    if q != [] {
      var toks := CompileLiteral(q) + rest;
      assert toks[0] == Char(q[0]);
      assert toks[1..] == CompileLiteral(q[1..]) + rest;
      if |s| > 0 && s[0] == q[0] {
        LiteralHead(q[1..], rest, s[1..], anchored);
        assert q <= s <==> q[1..] <= s[1..];
        if q <= s {
          assert s[1..][|q| - 1..] == s[|q|..];
        }
      }
    } else {
      assert CompileLiteral(q) + rest == rest;
    }
  }

  /** A trailing `.*$` accepts every string without a newline. */
  lemma {:induction false} AnyRunAcceptsLine(t: string)
    requires '\n' !in t
    ensures MatchHere([AnyRun], t, true)
  {
    if t != [] {
      assert t[0] != '\n';
      AnyRunAcceptsLine(t[1..]);
    } else {
      assert [AnyRun][1..] == [];
    }
  }

  /**
   * On the model, scenario and region axes `re.match` without an end anchor accepts exactly the
   * strings the pattern is a prefix of; it is not an equality test.
   */
  lemma AxisMatchIsPrefix(p: string, s: string)
    requires LiteralPattern(p)
    ensures Matches(p, s, false) <==> p <= s
  {
    LiteralHead(p, [], s, false);
    assert CompileLiteral(p) + [] == CompileLiteral(p);
  }

  /** "m1" selects the rows of model "m10" as well. */
  lemma PrefixMatchQuirk()
    ensures Matches("m1", "m10", false)
    ensures Matches("m1", "m1", false)
  {
    AxisMatchIsPrefix("m1", "m10");
    AxisMatchIsPrefix("m1", "m1");
  }

  /**
   * A variable pattern without `*` matches the identical string, and because `$` also accepts a
   * final newline, that string followed by one newline; nothing else.
   */
  lemma VariableLiteralMatch(p: string, s: string)
    requires VariablePattern(p) && '*' !in p
    ensures Matches(p, s, true) <==> s == p || s == p + "\n"
  {
    assert CompileVariable(p) == CompileLiteral(p) + [];
    LiteralHead(p, [], s, true);
    if p <= s {
      assert s == p + s[|p|..];
    }
  }

  /** For variable names without a newline a `*`-free pattern is an equality test. */
  lemma VariableLiteralIsEquality(p: string, s: string)
    requires VariablePattern(p) && '*' !in p && '\n' !in s
    ensures Matches(p, s, true) <==> s == p
  {
    VariableLiteralMatch(p, s);
    assert (p + "\n")[|p|] == '\n';
  }

  /** A pattern `q*` with a `*`-free `q` accepts every newline-free variable that starts with `q`. */
  lemma TrailingWildcard(q: string, s: string)
    requires VariablePattern(q) && '*' !in q && '\n' !in s
    ensures VariablePattern(q + "*")
    ensures Matches(q + "*", s, true) <==> q <= s
  {
    var p := q + "*";
    assert forall i :: 0 <= i < |q| ==> p[i] == q[i];
    assert p[|q|] == '*';
    assert CompileVariable(p) == CompileLiteral(q) + [AnyRun];
    LiteralHead(q, [AnyRun], s, true);
    if q <= s {
      var t := s[|q|..];
      assert forall i :: 0 <= i < |t| ==> t[i] == s[|q| + i];
      AnyRunAcceptsLine(t);
    }
  }

  /** The documented examples: `Emissions*` covers `Emissions` and its children, `Emissions|*` only the children. */
  lemma EmissionsWildcards()
    ensures VariablePattern("Emissions*") && VariablePattern("Emissions|*")
    ensures Matches("Emissions*", "Emissions", true)
    ensures Matches("Emissions*", "Emissions|CO2", true)
    ensures !Matches("Emissions|*", "Emissions", true)
  {
    assert "Emissions*" == "Emissions" + "*";
    assert "Emissions|*" == "Emissions|" + "*";
    assert "Emissions" <= "Emissions|CO2";
    TrailingWildcard("Emissions", "Emissions");
    TrailingWildcard("Emissions", "Emissions|CO2");
    TrailingWildcard("Emissions|", "Emissions");
  }
}
