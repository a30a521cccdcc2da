/**
 * Channel-name recognition of the discourse-presence plugin.
 *
 * The plugin looks for `/discourse-presence/<kind>/(\d+)` anywhere in the channel
 * name (the Ruby `String#[regexp, 1]` form), trying the kinds reply, whisper and
 * edit in that order.  The regular expression is fixed, so its meaning is written
 * out here: the leftmost position where the literal prefix is followed by a digit,
 * and from there the greedy (maximal) run of ASCII digits, which Ruby's `\d` means.
 */
module ChannelName {
  import opened Wrappers

  const ReplyPrefix: string := "/discourse-presence/reply/"
  const WhisperPrefix: string := "/discourse-presence/whisper/"
  const EditPrefix: string := "/discourse-presence/edit/"

  /** Ruby's `\d`: ASCII digits only. */
  predicate IsDigit(ch: char) {
    '0' <= ch <= '9'
  }

  predicate AllDigits(s: string) {
    forall k :: 0 <= k < |s| ==> IsDigit(s[k])
  }

  /** The pattern `prefix(\d+)` matches starting at position `i` of `name`. */
  predicate MatchesAt(name: string, prefix: string, i: nat) {
    i + |prefix| < |name| && name[i..i + |prefix|] == prefix && IsDigit(name[i + |prefix|])
  }

  /** The leftmost position at or after `from` where the pattern matches. */
  function FirstMatch(name: string, prefix: string, from: nat): (r: Option<nat>)
    decreases |name| - from
    ensures r.Some? ==> from <= r.value && MatchesAt(name, prefix, r.value)
    ensures forall j: nat :: from <= j && (r.None? || j < r.value) ==> !MatchesAt(name, prefix, j)
  {
    if from + |prefix| >= |name| then None
    else if MatchesAt(name, prefix, from) then Some(from)
    else FirstMatch(name, prefix, from + 1)
  }

  /** The longest prefix of `s` made of digits (what the greedy `\d+` consumes). */
  function DigitRun(s: string): (r: string)
    ensures r <= s
    ensures AllDigits(r)
    ensures |r| == |s| || !IsDigit(s[|r|])
  {
    if s != [] && IsDigit(s[0]) then [s[0]] + DigitRun(s[1..]) else []
  }

  /** `name[/prefix(\d+)/, 1]`: the first capture group of the leftmost match, or nil. */
  function Capture(name: string, prefix: string): (r: Option<string>)
    ensures r.Some? ==> r.value != [] && AllDigits(r.value)
    ensures r.None? <==> forall j: nat :: !MatchesAt(name, prefix, j)
  {
    match FirstMatch(name, prefix, 0)
    case None => None
    case Some(i) => Some(DigitRun(name[i + |prefix|..]))
  }

  /** The integer an id string denotes once ActiveRecord casts it (`"007"` finds record 7). */
  function DecimalValue(ds: string): (n: nat)
    requires AllDigits(ds)
    ensures |ds| == 1 ==> n == ds[0] as int - '0' as int
  {
    if ds == [] then 0
    else 10 * DecimalValue(ds[..|ds| - 1]) + (ds[|ds| - 1] as int - '0' as int)
  }

  /** What a channel name refers to: the kind of the first pattern that matched and the id. */
  datatype ChannelRef = Reply(topicId: nat) | Whisper(topicId: nat) | Edit(postId: nat)

  /** The `if / elsif / elsif` over the three patterns (plugin.rb lines 18, 32, 35). */
  function Parse(name: string): (r: Option<ChannelRef>)
    ensures r.None? <==>
      (forall j: nat :: !MatchesAt(name, ReplyPrefix, j)) &&
      (forall j: nat :: !MatchesAt(name, WhisperPrefix, j)) &&
      (forall j: nat :: !MatchesAt(name, EditPrefix, j))
  {
    match Capture(name, ReplyPrefix)
    case Some(ds) => Some(Reply(DecimalValue(ds)))
    case None =>
      match Capture(name, WhisperPrefix)
      case Some(ds) => Some(Whisper(DecimalValue(ds)))
      case None =>
        match Capture(name, EditPrefix)
        case Some(ds) => Some(Edit(DecimalValue(ds)))
        case None => None
  }

  /** Leading zeros do not change the id: `reply/007` and `reply/7` refer to the same topic. */
  lemma {:induction false} LeadingZeroIgnored(ds: string)
    requires AllDigits(ds)
    ensures DecimalValue("0" + ds) == DecimalValue(ds)
  {
    if ds != [] {
      var zs := "0" + ds;
      assert zs[..|zs| - 1] == "0" + ds[..|ds| - 1];
      assert zs[|zs| - 1] == ds[|ds| - 1];
      LeadingZeroIgnored(ds[..|ds| - 1]);
    }
  }

  /** The capture is the maximal digit run after the leftmost match. */
  lemma CaptureAtLeftmost(name: string, prefix: string, i: nat)
    requires MatchesAt(name, prefix, i)
    requires forall j: nat :: j < i ==> !MatchesAt(name, prefix, j)
    ensures Capture(name, prefix) == Some(DigitRun(name[i + |prefix|..]))
  {
  }

  /** No channel is recognised exactly when none of the three patterns matches anywhere. */
  lemma ParseNoneIff(name: string)
    ensures Parse(name).None? <==>
      (forall j: nat :: !MatchesAt(name, ReplyPrefix, j)) &&
      (forall j: nat :: !MatchesAt(name, WhisperPrefix, j)) &&
      (forall j: nat :: !MatchesAt(name, EditPrefix, j))
  {
  }

  /** A reply match anywhere wins over whisper and edit matches. */
  lemma ReplyTakesPriority(name: string, i: nat)
    requires MatchesAt(name, ReplyPrefix, i)
    ensures Parse(name).Some? && Parse(name).value.Reply?
  {
  }

  /** Without a reply match, a whisper match wins over an edit match. */
  lemma WhisperBeforeEdit(name: string, i: nat)
    requires forall j: nat :: !MatchesAt(name, ReplyPrefix, j)
    requires MatchesAt(name, WhisperPrefix, i)
    ensures Parse(name).Some? && Parse(name).value.Whisper?
  {
  }

  /** Only when neither reply nor whisper matches does an edit match count. */
  lemma EditLast(name: string, i: nat)
    requires forall j: nat :: !MatchesAt(name, ReplyPrefix, j)
    requires forall j: nat :: !MatchesAt(name, WhisperPrefix, j)
    requires MatchesAt(name, EditPrefix, i)
    ensures Parse(name).Some? && Parse(name).value.Edit?
  {
  }

  /** A run of digits stops at the first non-digit. */
  lemma {:induction false} DigitRunOfDigits(ds: string, rest: string)
    requires AllDigits(ds)
    requires rest == [] || !IsDigit(rest[0])
    ensures DigitRun(ds + rest) == ds
  {
    if ds != [] {
      assert (ds + rest)[1..] == ds[1..] + rest;
      DigitRunOfDigits(ds[1..], rest);
    }
  }

  /** One differing character rules out a match at `j`. */
  lemma Mismatch(name: string, prefix: string, j: nat, k: nat)
    requires k < |prefix| && j + k < |name| && name[j + k] != prefix[k]
    ensures !MatchesAt(name, prefix, j)
  {
  }

  /** A character of the prefix that never occurs in the name rules out every match. */
  lemma ForeignCharNoMatch(name: string, prefix: string, k: nat, j: nat)
    requires k < |prefix|
    requires forall m :: 0 <= m < |name| ==> name[m] != prefix[k]
    ensures !MatchesAt(name, prefix, j)
  {
    if j + k < |name| {
      Mismatch(name, prefix, j, k);
    }
  }

  /**
   * A name written as the reply prefix, a digit run and a tail that does not
   * continue the run names the reply channel of that topic id; the tail is ignored.
   */
  lemma ReplyNameRoundTrip(ds: string, rest: string)
    requires ds != [] && AllDigits(ds)
    requires rest == [] || !IsDigit(rest[0])
    ensures Parse(ReplyPrefix + ds + rest) == Some(Reply(DecimalValue(ds)))
  {
    var name := ReplyPrefix + ds + rest;
    assert name[..|ReplyPrefix|] == ReplyPrefix;
    assert name[|ReplyPrefix|..] == ds + rest;
    assert MatchesAt(name, ReplyPrefix, 0);
    CaptureAtLeftmost(name, ReplyPrefix, 0);
    DigitRunOfDigits(ds, rest);
  }

  /** Whisper names built from the whisper prefix and a digit run parse back. */
  lemma WhisperNameRoundTrip(ds: string)
    requires ds != [] && AllDigits(ds)
    ensures Parse(WhisperPrefix + ds) == Some(Whisper(DecimalValue(ds)))
  {
    var name := WhisperPrefix + ds;
    forall m | 0 <= m < |name| ensures name[m] != ReplyPrefix[24] {
      if m >= |WhisperPrefix| { assert name[m] == ds[m - |WhisperPrefix|]; }
    }
    forall j: nat ensures !MatchesAt(name, ReplyPrefix, j) {
      ForeignCharNoMatch(name, ReplyPrefix, 24, j);
    }
    assert name[..|WhisperPrefix|] == WhisperPrefix;
    assert name[|WhisperPrefix|..] == ds + [];
    assert MatchesAt(name, WhisperPrefix, 0);
    CaptureAtLeftmost(name, WhisperPrefix, 0);
    DigitRunOfDigits(ds, []);
  }

  /** Edit names built from the edit prefix and a digit run parse back. */
  lemma EditNameRoundTrip(ds: string)
    requires ds != [] && AllDigits(ds)
    ensures Parse(EditPrefix + ds) == Some(Edit(DecimalValue(ds)))
  {
    var name := EditPrefix + ds;
    assert Capture(name, ReplyPrefix) == None by {
      forall m | 0 <= m < |name| ensures name[m] != ReplyPrefix[24] {
        if m >= |EditPrefix| { assert name[m] == ds[m - |EditPrefix|]; }
      }
      forall j: nat ensures !MatchesAt(name, ReplyPrefix, j) {
        ForeignCharNoMatch(name, ReplyPrefix, 24, j);
      }
    }
    assert Capture(name, WhisperPrefix) == None by {
      forall m | 0 <= m < |name| ensures name[m] != WhisperPrefix[20] {
        if m >= |EditPrefix| { assert name[m] == ds[m - |EditPrefix|]; }
      }
      forall j: nat ensures !MatchesAt(name, WhisperPrefix, j) {
        ForeignCharNoMatch(name, WhisperPrefix, 20, j);
      }
    }
    assert Capture(name, EditPrefix) == Some(ds) by {
      assert name[..|EditPrefix|] == EditPrefix;
      assert name[|EditPrefix|..] == ds + [];
      assert MatchesAt(name, EditPrefix, 0);
      CaptureAtLeftmost(name, EditPrefix, 0);
      DigitRunOfDigits(ds, []);
    }
  }

  /** `reply/-999` and `reply/blah` name no channel: `\d+` needs a digit right after the prefix. */
  lemma InvalidReplyIds()
    ensures Parse("/discourse-presence/reply/-999") == None
    ensures Parse("/discourse-presence/reply/blah") == None
  {
    ShortReplyNameWithoutId("/discourse-presence/reply/-999");
    ShortReplyNameWithoutId("/discourse-presence/reply/blah");
  }

  /** A reply prefix followed by four characters, the first not a digit, names no channel. */
  lemma ShortReplyNameWithoutId(name: string)
    requires |name| == |ReplyPrefix| + 4 && name[..|ReplyPrefix|] == ReplyPrefix
    requires !IsDigit(name[|ReplyPrefix|])
    ensures Parse(name) == None
  {
    assert name[1] == 'd' && name[2] == 'i' && name[3] == 's' && name[20] == 'r' by {
      assert name[..|ReplyPrefix|][1] == name[1];
      assert name[..|ReplyPrefix|][2] == name[2];
      assert name[..|ReplyPrefix|][3] == name[3];
      assert name[..|ReplyPrefix|][20] == name[20];
    }
    forall j: nat ensures !MatchesAt(name, ReplyPrefix, j) {
      if 0 < j <= 3 { Mismatch(name, ReplyPrefix, j, 0); }
    }
    forall j: nat ensures !MatchesAt(name, WhisperPrefix, j) {
      if j == 0 { Mismatch(name, WhisperPrefix, j, 20); }
      else if j == 1 { Mismatch(name, WhisperPrefix, j, 0); }
    }
    forall j: nat ensures !MatchesAt(name, EditPrefix, j) {
      if j == 0 { Mismatch(name, EditPrefix, j, 20); }
      else if j <= 3 { Mismatch(name, EditPrefix, j, 0); }
      else if j == 4 { Mismatch(name, EditPrefix, j, 20); }
    }
  }
}
