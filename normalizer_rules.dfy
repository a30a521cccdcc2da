/**
 * What the URL normalizer's rule source means.  The source is `|`-separated;
 * each piece is lexed by counting slashes that are not right after a backslash:
 * the characters before the second such slash are the pattern buffer, that
 * slash and the rest the substitution buffer.  The regular expression engine
 * (`Regexp.new`, `String#sub`, `String#gsub`) is not modelled: a rule keeps its
 * pattern source text, and substitution is a function the caller supplies.
 */
module NormalizerRules {
  import opened Wrappers

  /** A parsed rule: the pattern source handed to `Regexp.new` and the replacement text. */
  datatype Rule = Rule(pattern: string, substitution: string)

  /** Unicode White_Space, the `[[:space:]]` of ActiveSupport's `blank?`. */
  predicate IsSpace(ch: char) {
    || '\U{0009}' <= ch <= '\U{000D}' || ch == ' ' || ch == '\U{0085}' || ch == '\U{00A0}'
    || ch == '\U{1680}' || '\U{2000}' <= ch <= '\U{200A}' || ch == '\U{2028}' || ch == '\U{2029}'
    || ch == '\U{202F}' || ch == '\U{205F}' || ch == '\U{3000}'
  }

  /** `present?`: some character is not white space. */
  predicate Present(s: string): (r: bool)
    ensures r ==> s != ""
  {
    exists i | 0 <= i < |s| :: !IsSpace(s[i])
  }

  /** The empty string, white space of any kind, and anything with a visible character. */
  lemma PresentExamples()
    ensures !Present("") && !Present(" \t\r\n") && !Present("\U{00A0}\U{3000}")
    ensures Present(" /a/b/ ")
  {
    assert !IsSpace(" /a/b/ "[1]);
  }

  // ---------------------------------------------------------------- splitting

  /** Every field between separators, empty ones included. */
  function Fields(s: string, sep: char): (r: seq<string>)
    ensures |r| >= 1
    ensures forall k :: 0 <= k < |r| ==> sep !in r[k]
  {
    if s == [] then [""]
    else
      var rest := Fields(s[1..], sep);
      if s[0] == sep then [""] + rest
      else [[s[0]] + rest[0]] + rest[1..]
  }

  /** The fields joined back with the separator between them. */
  function Join(fs: seq<string>, sep: char): string
    requires |fs| >= 1
  {
    if |fs| == 1 then fs[0] else fs[0] + [sep] + Join(fs[1..], sep)
  }

  /** Splitting loses nothing: joining the fields gives back the string. */
  lemma {:induction false} JoinFields(s: string, sep: char)
    ensures Join(Fields(s, sep), sep) == s
  {
    if s != [] {
      var rest := Fields(s[1..], sep);
      JoinFields(s[1..], sep);
      if s[0] == sep {
        assert Fields(s, sep)[1..] == rest;
      } else {
        var fs := Fields(s, sep);
        if |rest| == 1 {
          assert fs == [[s[0]] + rest[0]];
        } else {
          assert fs[1..] == rest[1..];
          assert rest == [rest[0]] + rest[1..];
          assert Join(rest, sep) == rest[0] + [sep] + Join(rest[1..], sep);
        }
      }
    }
  }

  /** Every separator ends a field: nothing escapes it, not even a preceding backslash. */
  lemma {:induction false} FieldsAtSeparator(a: string, sep: char, b: string)
    requires sep !in a
    ensures Fields(a + [sep] + b, sep) == [a] + Fields(b, sep)
  {
    if a == [] {
      assert [sep] + b == [] + [sep] + b;
      assert ([sep] + b)[1..] == b;
    } else {
      assert (a + [sep] + b)[1..] == a[1..] + [sep] + b;
      FieldsAtSeparator(a[1..], sep, b);
      assert [a[0]] + a[1..] == a;
    }
  }

  /** The list without its trailing empty strings. */
  function DropTrailingEmpty(fs: seq<string>): (r: seq<string>)
    ensures r <= fs
    ensures r == [] || r[|r| - 1] != ""
    ensures forall k :: |r| <= k < |fs| ==> fs[k] == ""
  {
    if fs == [] then []
    else if fs[|fs| - 1] == "" then DropTrailingEmpty(fs[..|fs| - 1])
    else fs
  }

  /** Ruby's `String#split` with a one-character string: fields, trailing empty ones removed. */
  function RubySplit(s: string, sep: char): (r: seq<string>)
    ensures r <= Fields(s, sep)
    ensures r == [] || r[|r| - 1] != ""
    ensures forall k :: 0 <= k < |r| ==> sep !in r[k]
  {
    DropTrailingEmpty(Fields(s, sep))
  }

  // ---------------------------------------------------------------- lexing

  /** The character at `i` is a slash the lexer counts: not right after a backslash. */
  predicate CountedSlash(rule: string, i: nat)
    requires i < |rule|
  {
    rule[i] == '/' && !(i > 0 && rule[i - 1] == '\\')
  }

  /** How many counted slashes lie among the first `n` characters. */
  function SlashCount(rule: string, n: nat): nat
    requires n <= |rule|
  {
    if n == 0 then 0
    else SlashCount(rule, n - 1) + (if CountedSlash(rule, n - 1) then 1 else 0)
  }

  lemma {:induction false} SlashCountMonotone(rule: string, m: nat, n: nat)
    requires m <= n <= |rule|
    ensures SlashCount(rule, m) <= SlashCount(rule, n)
  {
    if m < n {
      SlashCountMonotone(rule, m, n - 1);
    }
  }

  function SplitFrom(rule: string, i: nat): (k: nat)
    requires i <= |rule|
    decreases |rule| - i
    ensures i <= k <= |rule|
    ensures forall j :: i < j <= k ==> SlashCount(rule, j) <= 1
    ensures k < |rule| ==> SlashCount(rule, k + 1) > 1
  {
    if i == |rule| then i
    else if SlashCount(rule, i + 1) > 1 then i
    else SplitFrom(rule, i + 1)
  }

  /**
   * Where the substitution buffer starts: the position of the second counted
   * slash, or the end of the rule when there is none.
   */
  function SplitPoint(rule: string): (k: nat)
    ensures k <= |rule|
    ensures SlashCount(rule, k) <= 1
    ensures k < |rule| ==> rule[k] == '/' && CountedSlash(rule, k) && SlashCount(rule, k + 1) == 2
  {
    SplitFrom(rule, 0)
  }

  /** A character goes to the substitution buffer exactly when it is at or after the split point. */
  lemma SubstitutionSide(rule: string, i: nat)
    requires i < |rule|
    ensures SlashCount(rule, i + 1) > 1 <==> i >= SplitPoint(rule)
  {
    var k := SplitPoint(rule);
    if i >= k {
      SlashCountMonotone(rule, k + 1, i + 1);
    } else {
      assert SlashCount(rule, i + 1) <= 1 by {
        SlashCountMonotone(rule, i + 1, k);
      }
    }
  }

  /** The split point is the one position where the count of counted slashes first passes one. */
  lemma SplitPointAt(rule: string, k: nat)
    requires k <= |rule| && SlashCount(rule, k) <= 1
    requires k < |rule| ==> SlashCount(rule, k + 1) > 1
    ensures SplitPoint(rule) == k
  {
    var p := SplitPoint(rule);
    if p < k {
      SlashCountMonotone(rule, p + 1, k);
    }
  }

  /**
   * Whether `rule[i..]` contains `/`, then characters other than a line break,
   * then `/`; `open` says a slash was seen since the last line break before `i`.
   */
  function SlashPairFrom(rule: string, i: nat, open: bool): bool
    requires i <= |rule|
    decreases |rule| - i
  {
    if i == |rule| then false
    else if rule[i] == '/' then open || SlashPairFrom(rule, i + 1, true)
    else if rule[i] == '\n' then SlashPairFrom(rule, i + 1, false)
    else SlashPairFrom(rule, i + 1, open)
  }

  /**
   * `rule =~ /\/.*\//`: some slash is followed by another one with no line break
   * between them (Ruby's `.` does not match a newline); escapes play no part here.
   */
  predicate HasSlashPair(rule: string): (r: bool)
    ensures r <==> exists i, j :: SlashPairAt(rule, i, j)
  {
    SlashPairFromMeaning(rule, 0, false);
    SlashPairFrom(rule, 0, false)
  }

  /** No line break among `rule[a..b]`. */
  predicate NoLineBreak(rule: string, a: nat, b: nat)
    requires a <= b <= |rule|
  {
    forall m | a <= m < b :: rule[m] != '\n'
  }

  /** Two slashes at `i < j` with no line break strictly between them: what `/\/.*\//` matches. */
  predicate SlashPairAt(rule: string, i: nat, j: nat) {
    i < j < |rule| && rule[i] == '/' && rule[j] == '/' && NoLineBreak(rule, i + 1, j)
  }

  /** A slash at `k`, reachable from `i` without crossing a line break. */
  predicate SlashAhead(rule: string, i: nat, k: nat) {
    i <= k < |rule| && rule[k] == '/' && NoLineBreak(rule, i, k)
  }

  /** What the scan from `i` finds: a slash pair ahead, or a slash closing the open one. */
  lemma {:induction false} SlashPairFromMeaning(rule: string, i: nat, open: bool)
    requires i <= |rule|
    decreases |rule| - i
    ensures SlashPairFrom(rule, i, open) <==>
      (exists j, k :: i <= j && SlashPairAt(rule, j, k)) || (open && exists k :: SlashAhead(rule, i, k))
  {
    if i < |rule| {
      var next := i + 1;
      if rule[i] == '/' {
        SlashPairFromMeaning(rule, i + 1, true);
        if open {
          assert SlashAhead(rule, i, i);
        } else {
          if exists k :: SlashAhead(rule, next, k) {
            var k :| SlashAhead(rule, next, k);
            assert SlashPairAt(rule, i, k);
          }
          if exists j, k :: i <= j && SlashPairAt(rule, j, k) {
            var j, k :| i <= j && SlashPairAt(rule, j, k);
            if j == i {
              assert SlashAhead(rule, next, k);
            } else {
              assert i + 1 <= j && SlashPairAt(rule, j, k);
            }
          }
        }
      } else {
        SlashPairFromMeaning(rule, i + 1, open && rule[i] != '\n');
        if exists j, k :: i <= j && SlashPairAt(rule, j, k) {
          var j, k :| i <= j && SlashPairAt(rule, j, k);
          assert i + 1 <= j && SlashPairAt(rule, j, k);
        }
        if exists k :: SlashAhead(rule, i, k) {
          var k :| SlashAhead(rule, i, k);
          assert rule[i] != '\n';
          assert SlashAhead(rule, next, k);
        }
        if rule[i] != '\n' && exists k :: SlashAhead(rule, next, k) {
          var k :| SlashAhead(rule, next, k);
          assert SlashAhead(rule, i, k);
        }
      }
    }
  }

  /**
   * `parse_rule`: nil without a slash pair or when the pattern buffer is shorter
   * than two characters; otherwise the pattern buffer without its first character
   * and the substitution buffer without its leading slash (`""` if it is empty).
   */
  function RuleOf(rule: string): (r: Option<Rule>)
    ensures r.Some? ==> HasSlashPair(rule) && r.value.pattern != []
    ensures r.Some? ==> |r.value.pattern| + |r.value.substitution| < |rule|
  {
    if !HasSlashPair(rule) then None
    else
      var k := SplitPoint(rule);
      if k > 1 then Some(Rule(rule[1..k], if k < |rule| then rule[k + 1..] else ""))
      else None
  }

  /** A rule is produced exactly when the slash pair is there and the pattern buffer has two characters. */
  lemma RuleOfSomeIff(rule: string)
    ensures RuleOf(rule).Some? <==> HasSlashPair(rule) && SplitPoint(rule) >= 2
  {
  }

  /**
   * The lexer loses no character: the rule is the dropped first character, the
   * pattern, then, if there was a second counted slash, that slash and the substitution.
   */
  lemma RuleOfReassembles(rule: string)
    requires RuleOf(rule).Some?
    ensures var r := RuleOf(rule).value;
      rule == [rule[0]] + r.pattern + (if SplitPoint(rule) < |rule| then ['/'] + r.substitution else [])
      && (SplitPoint(rule) == |rule| ==> r.substitution == "")
  {
    var k := SplitPoint(rule);
    assert rule == rule[..1] + rule[1..k] + rule[k..];
    if k < |rule| {
      assert rule[k..] == [rule[k]] + rule[k + 1..];
    }
  }

  /** `//x`: the pattern buffer is the single first slash, so no rule. */
  lemma EmptyPatternRejected()
    ensures RuleOf("//x") == None
  {
  }

  /** `/a\/b/c`: the escaped slash stays in the pattern. */
  lemma EscapedSlashInPattern()
    ensures RuleOf("/a\\/b/c") == Some(Rule("a\\/b", "c"))
  {
    var rule := "/a\\/b/c";
    SplitPointAt(rule, 5);
    assert rule[1..5] == "a\\/b" && rule[6..] == "c";
  }

  /**
   * `/a\\/b/`: the slash after two backslashes is still not counted, because only
   * the single previous character is looked at.
   */
  lemma DoubleBackslashStillEscapes()
    ensures RuleOf("/a\\\\/b/") == Some(Rule("a\\\\/b", ""))
  {
    var rule := "/a\\\\/b/";
    SplitPointAt(rule, 6);
    assert rule[1..6] == "a\\\\/b" && rule[7..] == "";
    assert HasSlashPair(rule);
  }

  /** `x/a/b`: the first character is dropped whatever it is, so the pattern keeps the first slash. */
  lemma FirstCharacterDropped()
    ensures RuleOf("x/a/b") == Some(Rule("/a", "b"))
  {
    var rule := "x/a/b";
    SplitPointAt(rule, 3);
    assert rule[1..3] == "/a" && rule[4..] == "b";
  }

  /** `/a\n/b`: the lexer would split it, but the line break defeats the slash-pair check. */
  lemma LineBreakBetweenSlashesRejected()
    ensures RuleOf("/a\n/b") == None
  {
  }

  // ---------------------------------------------------------------- rule list

  /** `map { |piece| parse.(piece) }.compact`: the pieces that parse, in source order. */
  function MapCompact<T>(pieces: seq<string>, parse: string -> Option<T>): seq<T> {
    if pieces == [] then []
    else MapCompact(pieces[..|pieces| - 1], parse) + OptionToSeq(parse(pieces[|pieces| - 1]))
  }

  /** Compacting keeps at most one rule per piece. */
  lemma {:induction false} MapCompactLength<T>(pieces: seq<string>, parse: string -> Option<T>)
    ensures |MapCompact(pieces, parse)| <= |pieces|
  {
    if pieces != [] {
      MapCompactLength(pieces[..|pieces| - 1], parse);
    }
  }

  /** Mapping and compacting distributes over concatenation, so source order is kept. */
  lemma {:induction false} MapCompactAppend<T>(a: seq<string>, b: seq<string>, parse: string -> Option<T>)
    ensures MapCompact(a + b, parse) == MapCompact(a, parse) + MapCompact(b, parse)
  {
    if b == [] {
      assert a + b == a;
    } else {
      var ab := a + b;
      var b' := b[..|b| - 1];
      assert ab[..|ab| - 1] == a + b';
      assert ab[|ab| - 1] == b[|b| - 1];
      MapCompactAppend(a, b', parse);
    }
  }

  /** A single piece contributes its rule, or nothing when it does not parse. */
  lemma MapCompactSingle<T>(piece: string, parse: string -> Option<T>)
    ensures MapCompact([piece], parse) == OptionToSeq(parse(piece))
  {
    assert [piece][..0] == [];
  }

  /** The rule list a source string yields. */
  function ParsedRules(source: string): (r: seq<Rule>)
    ensures |r| <= |Fields(source, '|')|
  {
    MapCompactLength(RubySplit(source, '|'), RuleOf);
    MapCompact(RubySplit(source, '|'), RuleOf)
  }

  /** An empty piece is not a rule. */
  lemma EmptyPieceRejected()
    ensures RuleOf("") == None
  {
  }

  /** Dropping trailing empty fields makes no difference once pieces that do not parse are dropped. */
  lemma {:induction false} TrailingEmptyIrrelevant<T>(fs: seq<string>, parse: string -> Option<T>)
    requires parse("").None?
    ensures MapCompact(DropTrailingEmpty(fs), parse) == MapCompact(fs, parse)
  {
    if fs != [] && fs[|fs| - 1] == "" {
      TrailingEmptyIrrelevant(fs[..|fs| - 1], parse);
    }
  }

  /** The rules are those of the piece before the first `|` followed by those of the rest. */
  lemma ParsedRulesAtPipe(a: string, b: string)
    requires '|' !in a
    ensures ParsedRules(a + "|" + b) == OptionToSeq(RuleOf(a)) + ParsedRules(b)
  {
    FieldsAtSeparator(a, '|', b);
    EmptyPieceRejected();
    TrailingEmptyIrrelevant(Fields(a + "|" + b, '|'), RuleOf);
    TrailingEmptyIrrelevant(Fields(b, '|'), RuleOf);
    MapCompactAppend([a], Fields(b, '|'), RuleOf);
    MapCompactSingle(a, RuleOf);
  }

  // ---------------------------------------------------------------- rewriting

  /**
   * Each rule in order rewrites the output of the previous one; `replace(url,
   * pattern, substitution)` is the engine's `sub` or `gsub`.
   */
  function ApplyRules(rules: seq<Rule>, url: string, replace: (string, string, string) -> string): (r: string)
    ensures rules == [] ==> r == url
    ensures |rules| == 1 ==> r == replace(url, rules[0].pattern, rules[0].substitution)
  {
    if rules == [] then url
    else
      var last := rules[|rules| - 1];
      replace(ApplyRules(rules[..|rules| - 1], url, replace), last.pattern, last.substitution)
  }

  /** Rewriting with a concatenation of rule lists is rewriting with one, then the other. */
  lemma {:induction false} ApplyRulesAppend(a: seq<Rule>, b: seq<Rule>, url: string,
                                            replace: (string, string, string) -> string)
    ensures ApplyRules(a + b, url, replace) == ApplyRules(b, ApplyRules(a, url, replace), replace)
  {
    if b == [] {
      assert a + b == a;
    } else {
      var ab := a + b;
      assert ab[..|ab| - 1] == a + b[..|b| - 1];
      assert ab[|ab| - 1] == b[|b| - 1];
      ApplyRulesAppend(a, b[..|b| - 1], url, replace);
    }
  }

  /** The first rule acts first. */
  lemma ApplyRulesFirst(r: Rule, rest: seq<Rule>, url: string, replace: (string, string, string) -> string)
    ensures ApplyRules([r] + rest, url, replace) ==
            ApplyRules(rest, replace(url, r.pattern, r.substitution), replace)
  {
    ApplyRulesAppend([r], rest, url, replace);
    assert [r][..0] == [];
  }
}
