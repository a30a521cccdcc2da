/**
 * The `Normalizer` class: the constructor parses the `|`-separated rule source
 * into the `rules` field (left unset for a blank source), `ParseRule` runs the
 * character lexer, and `Normalize` / `NormalizeAll` rewrite a URL with every
 * rule in turn.  The regular expression engine is passed in: `sub` replaces the
 * first match, `gsub` every match, as Ruby's `String#sub` and `String#gsub` do.
 */
module UrlNormalizer {
  import opened Wrappers
  import opened NormalizerRules

  /**
   * The character loop of `parse_rule`: count slashes not preceded by a backslash
   * and send every character to the pattern buffer until the second such slash,
   * and from that slash on to the substitution buffer.
   */
  method Lex(rule: string) returns (regex: string, sub: string)
    ensures regex + sub == rule
    ensures regex == rule[..SplitPoint(rule)] && sub == rule[SplitPoint(rule)..]
    ensures SlashCount(rule, |regex|) <= 1
    ensures sub == [] || (sub[0] == '/' && CountedSlash(rule, |regex|))
  {
    var escaping := false;
    regex, sub := "", "";
    var c := 0;
    for i := 0 to |rule|
      invariant c == SlashCount(rule, i)
      invariant escaping == (i > 0 && rule[i - 1] == '\\')
      invariant i <= SplitPoint(rule) ==> regex == rule[..i] && sub == ""
      invariant i > SplitPoint(rule) ==> regex == rule[..SplitPoint(rule)] && sub == rule[SplitPoint(rule)..i]
    {
      var l := rule[i];
      if !escaping && l == '/' {
        c := c + 1;
      }
      escaping := l == '\\';
      SubstitutionSide(rule, i);
      if c > 1 {
        sub := sub + [l];
      } else {
        regex := regex + [l];
      }
    }
  }

  /** `parse_rule`: the rule a piece of the source denotes, or None. */
  method ParseRule(rule: string) returns (r: Option<Rule>)
    ensures r == RuleOf(rule)
  {
    if !HasSlashPair(rule) {
      return None;
    }
    var regex, sub := Lex(rule);
    if |regex| > 1 {
      r := Some(Rule(regex[1..], if |sub| >= 1 then sub[1..] else ""));
    } else {
      r := None;
    }
  }

  class Normalizer {
    const source: string
    /** `@rules`: None while unset, which happens when the source is blank. */
    var rules: Option<seq<Rule>>

    constructor (source: string)
      ensures this.source == source
      ensures rules == if Present(source) then Some(ParsedRules(source)) else None
    {
      this.source := source;
      if Present(source) {
        var pieces := RubySplit(source, '|');
        var kept: seq<Rule> := [];
        for i := 0 to |pieces|
          invariant kept == MapCompact(pieces[..i], RuleOf)
        {
          var r := ParseRule(pieces[i]);
          assert pieces[..i + 1][..i] == pieces[..i];
          assert MapCompact(pieces[..i + 1], RuleOf) == kept + OptionToSeq(r);
          if r.Some? {
            kept := kept + [r.value];
          }
        }
        assert pieces[..|pieces|] == pieces;
        MapCompactLength(pieces, RuleOf);
        assert kept == ParsedRules(source);
        rules := Some(kept);
      } else {
        rules := None;
      }
    }

    /** `normalize`: each rule in order replaces its first match; unchanged while rules are unset. */
    method Normalize(url: string, sub: (string, string, string) -> string) returns (result: string)
      ensures rules.None? ==> result == url
      ensures rules.Some? ==> result == ApplyRules(rules.value, url, sub)
    {
      if rules.None? {
        return url;
      }
      var rs := rules.value;
      result := url;
      for i := 0 to |rs|
        invariant result == ApplyRules(rs[..i], url, sub)
      {
        assert rs[..i + 1][..i] == rs[..i];
        result := sub(result, rs[i].pattern, rs[i].substitution);
      }
      assert rs[..|rs|] == rs;
    }

    /** `normalize_all`: each rule in order replaces every match; unchanged while rules are unset. */
    method NormalizeAll(url: string, gsub: (string, string, string) -> string) returns (result: string)
      ensures rules.None? ==> result == url
      ensures rules.Some? ==> result == ApplyRules(rules.value, url, gsub)
    {
      if rules.None? {
        return url;
      }
      var rs := rules.value;
      result := url;
      for i := 0 to |rs|
        invariant result == ApplyRules(rs[..i], url, gsub)
      {
        assert rs[..i + 1][..i] == rs[..i];
        result := gsub(result, rs[i].pattern, rs[i].substitution);
      }
      assert rs[..|rs|] == rs;
    }
  }

  /** A blank source leaves the rules unset, so both rewrites return the URL as given. */
  method BlankSourceKeepsUrl(source: string, url: string, sub: (string, string, string) -> string,
                             gsub: (string, string, string) -> string)
    returns (first: string, all: string)
    requires !Present(source)
    ensures first == url && all == url
  {
    var n := new Normalizer(source);
    first := n.Normalize(url, sub);
    all := n.NormalizeAll(url, gsub);
  }
}
