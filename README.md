# Presence-channel access and URL normalizer rules, modelled in Dafny

This project models two small pieces of a Discourse forum.

**The discourse-presence channel resolver** (`plugins/discourse-presence/plugin.rb`).
The plugin registers a block for the `discourse-presence` channel prefix. The block
takes a channel name and returns either nil ("no such channel") or a
`PresenceChannel::Config` with three fields: `public`, `allowed_user_ids` and
`allowed_group_ids`. The name is matched, in order, against
`/discourse-presence/reply/(\d+)`, `/discourse-presence/whisper/(\d+)` and
`/discourse-presence/edit/(\d+)`. Each pattern may match anywhere in the name, and the id
is the greedy digit run. The config then depends on the topic or post:

- a reply channel gives the participants plus staff for a private message, exactly the
  secure groups for a topic in a restricted category, and public otherwise;
- a whisper channel gives staff only;
- an edit channel starts with the author and staff, then adds at most one rule's users or
  groups: private-message participants for a PM wiki post, the wiki trust-level group
  for another wiki post, or trust level 4 when trusted users may edit others' posts.
  Nothing is added for a locked post or a whisper.

Missing records become nil.

**The URL normalizer** (`lib/normalizer.rb`). The source string is split on every `|`.
Each piece is lexed into a pattern and a substitution by a character loop that counts
slashes not directly after a backslash. Pieces that do not parse are dropped.
`normalize` and `normalize_all` then rewrite a URL with each rule in turn: `sub`
replaces the first match and `gsub` replaces every match.

Modules:

- `Wrappers`: the `Option` type.
- `ChannelName`: what the three channel-name patterns match.
- `PresencePolicy`: the records, the rules as pure functions, the view of the whole block
  (`GetConfig`) and the lemmas about it.
- `PresenceConfig`: the block as it runs. It writes the fields of a fresh `Config`
  object and grows the edit lists in place. It is proved to build exactly the config
  `GetConfig` describes.
- `NormalizerRules`: what splitting, the lexer and the rewrite fold mean.
- `UrlNormalizer`: the lexer loop (`Lex`) and `ParseRule` as module-level methods, and
  the `Normalizer` class with the `rules` field, the constructor loop and the two rewrite
  loops. Each is proved against `NormalizerRules`. In Ruby, `parse_rule` is an instance
  method, but it reads no instance state. The model makes it a plain method so the
  constructor can call it while it sets up `rules`.

Inputs the model takes as parameters:

- Topics and posts are finite maps from id to snapshot records (`Store`). A missing key
  stands for the lookup raising not-found.
- `Group::AUTO_GROUPS` is a parameter table holding the staff group and one group per
  trust level 0 to 4 (`AutoGroupTable`).
- The site settings `min_trust_to_edit_wiki_post` and `trusted_users_can_edit_others`
  are a parameter record.
- The regular-expression engine is a pair of function parameters, `sub` and `gsub`, each
  taking the URL, the pattern source and the substitution.

Notes on how the code behaves:

- The allow-lists are sequences, not sets. Their order and duplicates follow the
  concatenations and appends in `plugin.rb`.
- An empty `secure_group_ids` list still takes the secure-group branch, because an empty
  Ruby array is true. The result is a private channel that admits no group
  (`ReplyEmptySecureGroups`).
- A digit run is converted to the id it denotes (`DecimalValue`), so `reply/007` refers to
  topic 7, as ActiveRecord's cast does.

## Model

| member | source | states |
|---|---|---|
| `ChannelName.FirstMatch` | plugins/discourse-presence/plugin.rb:18 | the result is a position where the prefix is followed by a digit, and no earlier position (from the start point) matches; None means no position matches |
| `ChannelName.DigitRun` | plugins/discourse-presence/plugin.rb:18 | the result is a prefix of the input, all ASCII digits, and maximal: it ends at the input's end or before a non-digit (greedy `\d+`) |
| `ChannelName.Capture` | plugins/discourse-presence/plugin.rb:18 | the capture is a non-empty digit string, and it is nil exactly when the pattern matches nowhere in the name |
| `ChannelName.DecimalValue` | plugins/discourse-presence/plugin.rb:19 | the id a captured digit string denotes when `Topic.find`/`Post.find` cast it; a single digit denotes its own value, and leading zeros are ignored (`LeadingZeroIgnored`) |
| `ChannelName.LeadingZeroIgnored` | plugins/discourse-presence/plugin.rb:19 | a leading `0` does not change the id, so `reply/007` and `reply/7` refer to the same topic |
| `ChannelName.Parse` | plugins/discourse-presence/plugin.rb:18-35 | the `if/elsif` over the reply, whisper and edit patterns; the result is nil exactly when none of the three matches anywhere; the priority order is stated by `ReplyTakesPriority`, `WhisperBeforeEdit` and `EditLast` |
| `ChannelName.CaptureAtLeftmost` | plugins/discourse-presence/plugin.rb:18 | when `i` is the leftmost match, the capture is the maximal digit run right after the prefix at `i`; matching is unanchored |
| `ChannelName.ParseNoneIff` | plugins/discourse-presence/plugin.rb:18-60 | a name is recognised as no channel exactly when none of the three patterns matches at any position |
| `ChannelName.ReplyTakesPriority` | plugins/discourse-presence/plugin.rb:18 | a reply match anywhere makes the channel a reply channel, whatever whisper or edit text the name also holds |
| `ChannelName.WhisperBeforeEdit` | plugins/discourse-presence/plugin.rb:32 | with no reply match, a whisper match makes it a whisper channel even if an edit pattern also matches |
| `ChannelName.EditLast` | plugins/discourse-presence/plugin.rb:35 | an edit match counts only when neither reply nor whisper matches |
| `ChannelName.DigitRunOfDigits` | plugins/discourse-presence/plugin.rb:18 | the greedy run over a digit string followed by a non-digit (or nothing) is exactly that digit string |
| `ChannelName.ReplyNameRoundTrip` | plugins/discourse-presence/plugin.rb:18 | the reply prefix, a digit string and any tail that does not start with a digit name the reply channel of that digit string's id; the tail is ignored |
| `ChannelName.WhisperNameRoundTrip` | plugins/discourse-presence/plugin.rb:32 | the whisper prefix followed by a digit string names the whisper channel of that id |
| `ChannelName.EditNameRoundTrip` | plugins/discourse-presence/plugin.rb:35 | the edit prefix followed by a digit string names the edit channel of that post id |
| `ChannelName.ShortReplyNameWithoutId` | plugins/discourse-presence/plugin.rb:18-35 | the reply prefix followed by four characters whose first is not a digit matches none of the three patterns |
| `ChannelName.InvalidReplyIds` | plugins/discourse-presence/spec/integration/presence_spec.rb:27-35 | `reply/-999` and `reply/blah` are recognised as no channel, because `\d+` cannot start at `-` or `b` |
| `PresencePolicy.ReplyConfig` | plugins/discourse-presence/plugin.rb:22-28 | a reply config is public exactly when the topic is not a private message and has nil secure groups; a public config carries no lists; a private one always has a group list; a user list appears exactly for private messages |
| `PresencePolicy.WhisperConfig` | plugins/discourse-presence/plugin.rb:34 | a whisper config is private, has no user list and has the group list `[staff]` |
| `PresencePolicy.EditConfig` | plugins/discourse-presence/plugin.rb:40-58 | an edit config is never public, has both lists, and lists the author first among users and staff first among groups |
| `PresencePolicy.EditGrantOf` | plugins/discourse-presence/plugin.rb:45-58 | which edit rule applies, first match wins: a locked post or a whisper gets none of the additions, exactly; every other wiki post gets a wiki grant; the trust-level-4 grant needs a non-wiki post outside private messages with the setting enabled; no addition otherwise. The lists each grant produces are stated by the `Edit*` lemmas |
| `PresencePolicy.Evaluate` | plugins/discourse-presence/plugin.rb:19-59 | the lookups and rules for one parsed reference: None exactly when a record it needs is missing; only a reply channel can be public |
| `PresencePolicy.GetConfig` | plugins/discourse-presence/plugin.rb:17-63 | the whole block: no config for an unrecognised name, and a public config only for a reply channel; its exact outcomes are stated by `NoChannelIff` and the `Reply*`, `Whisper*` and `Edit*` lemmas, and `Resolve` is proved equal to it |
| `PresencePolicy.NoChannelIff` | plugins/discourse-presence/plugin.rb:17-63 | the block gives nil exactly when the name is not recognised or a record it needs (topic, post, or the post's topic) is missing |
| `PresencePolicy.InvalidReplyIdsHaveNoChannel` | plugins/discourse-presence/spec/integration/presence_spec.rb:27-35 | `reply/-999` and `reply/blah` give nil whatever records exist |
| `PresencePolicy.ReplyPrivateMessage` | plugins/discourse-presence/plugin.rb:22-24 | the reply channel of a private message is private, its users are the topic's allowed users, and its groups are the topic's allowed groups followed by staff |
| `PresencePolicy.ReplySecureGroups` | plugins/discourse-presence/plugin.rb:25-26 | for a topic that is not a private message and has non-nil secure groups, the reply channel is private with exactly those groups, no staff added, and no user list |
| `PresencePolicy.ReplyEmptySecureGroups` | plugins/discourse-presence/plugin.rb:25-26 | an empty secure-group list still gives a private channel, with an empty group list |
| `PresencePolicy.ReplyPublic` | plugins/discourse-presence/plugin.rb:27-28 | a topic that is neither a private message nor secure gives a public reply channel without lists |
| `PresencePolicy.WhisperIgnoresTopic` | plugins/discourse-presence/plugin.rb:32-34 | any existing topic record, whatever its fields, gives the same whisper config: private, no user list, groups `[staff]` |
| `PresencePolicy.EditLockedOrWhisper` | plugins/discourse-presence/plugin.rb:42-46 | a locked post or a whisper gives users `[author]` and groups `[staff]` exactly, even when it is a wiki |
| `PresencePolicy.EditPrivateMessageWiki` | plugins/discourse-presence/plugin.rb:47-53 | a wiki post in a private message gives users author then the topic's allowed users, and groups staff then the topic's allowed groups |
| `PresencePolicy.EditWiki` | plugins/discourse-presence/plugin.rb:54-55 | a wiki post outside private messages gives groups staff then the group of the configured wiki-editing trust level |
| `PresencePolicy.EditPlainPost` | plugins/discourse-presence/plugin.rb:56-57 | a plain post outside private messages adds the trust-level-4 group after staff exactly when trusted users may edit others' posts |
| `PresencePolicy.EditPrivateMessagePlainPost` | plugins/discourse-presence/plugin.rb:56-58 | a non-wiki post in a private message gets no additions: users `[author]`, groups `[staff]` |
| `PresencePolicy.EditOrphanPost` | plugins/discourse-presence/plugin.rb:36-38 | a post whose topic is gone gives nil, not a config |
| `PresencePolicy.ReplySecureAdmitsGroupMembers` | plugins/discourse-presence/spec/integration/presence_spec.rb:37-47 | a secure topic's reply channel admits a principal exactly when one of their groups is among the secure groups |
| `PresencePolicy.EditAdmitsAuthorAndStaff` | plugins/discourse-presence/spec/integration/presence_spec.rb:49-54 | every edit channel on an existing post is private and admits the author and every staff member |
| `PresenceConfig.Config.constructor` | plugins/discourse-presence/plugin.rb:20 | a new config is private with both lists nil |
| `PresenceConfig.Config.WithGroups` | plugins/discourse-presence/plugin.rb:34 | a config created with a group list is private, with that group list and no user list |
| `PresenceConfig.Resolve` | plugins/discourse-presence/plugin.rb:17-63 | the block returns nil exactly when `GetConfig` is None; otherwise a fresh config object whose fields equal `GetConfig`'s value |
| `NormalizerRules.Present` | lib/normalizer.rb:8 | `present?`: a present string is non-empty; it is present exactly when some character is not Unicode white space (`PresentExamples`) |
| `NormalizerRules.PresentExamples` | lib/normalizer.rb:8 | the empty string, ASCII white space, and the no-break and ideographic spaces are blank; a rule source with visible characters is present |
| `NormalizerRules.Fields` | lib/normalizer.rb:9 | splitting yields at least one field, and no field contains the separator |
| `NormalizerRules.RubySplit` | lib/normalizer.rb:9 | Ruby's `split` on the vertical bar: the result is a prefix of the fields, does not end in an empty field, and no piece contains the separator; `JoinFields` and `FieldsAtSeparator` state what the fields are |
| `NormalizerRules.JoinFields` | lib/normalizer.rb:9 | joining the fields with the separator gives back the source string |
| `NormalizerRules.FieldsAtSeparator` | lib/normalizer.rb:9 | every vertical-bar separator ends a field, even one right after a backslash (the separator cannot be escaped) |
| `NormalizerRules.DropTrailingEmpty` | lib/normalizer.rb:9 | Ruby's `split` result is a prefix of the fields, does not end in an empty field, and drops only empty fields |
| `NormalizerRules.SplitPoint` | lib/normalizer.rb:23-32 | the substitution buffer starts at the second counted slash, where the count reaches exactly two; before it at most one slash is counted |
| `NormalizerRules.SubstitutionSide` | lib/normalizer.rb:24-28 | a character goes to the substitution buffer exactly when the count including it exceeds one, which is exactly at or after the split point |
| `NormalizerRules.SplitPointAt` | lib/normalizer.rb:23-32 | the split point is the unique position where the count of counted slashes first passes one |
| `NormalizerRules.SlashPairFromMeaning` | lib/normalizer.rb:16 | the scan from a position finds a slash pair exactly when one lies ahead, or when a slash ahead closes a slash already open, with no line break between them |
| `NormalizerRules.HasSlashPair` | lib/normalizer.rb:16 | the `/\/.*\//` check holds exactly when two slashes have no line break between them (proved from the scan by `SlashPairFromMeaning`) |
| `NormalizerRules.RuleOf` | lib/normalizer.rb:15-37 | `parse_rule`'s result: a rule only when the slash-pair check holds, with a non-empty pattern, and pattern and substitution together shorter than the rule; `RuleOfSomeIff`, `RuleOfReassembles` and the example lemmas state it exactly |
| `NormalizerRules.RuleOfSomeIff` | lib/normalizer.rb:16-36 | a rule is produced exactly when the slash-pair check passes and the pattern buffer has length above one |
| `NormalizerRules.RuleOfReassembles` | lib/normalizer.rb:23-36 | no character is lost: the rule is its dropped first character, then the pattern, then (if a second counted slash exists) that slash and the substitution; the substitution is `""` when there is none |
| `NormalizerRules.EmptyPatternRejected` | lib/normalizer.rb:34 | `//x` gives nil, because the pattern buffer holds only the first slash |
| `NormalizerRules.EscapedSlashInPattern` | lib/normalizer.rb:24-25 | in `/a\/b/c` the escaped slash stays in the pattern `a\/b`, and the substitution is `c` |
| `NormalizerRules.DoubleBackslashStillEscapes` | lib/normalizer.rb:24-25 | in `/a\\/b/` the slash after two backslashes is still not counted, because only the single previous character is looked at; the pattern is `a\\/b` and the substitution is `""` |
| `NormalizerRules.FirstCharacterDropped` | lib/normalizer.rb:35 | `x/a/b` gives the pattern `/a`, because the first character is dropped whatever it is |
| `NormalizerRules.LineBreakBetweenSlashesRejected` | lib/normalizer.rb:16 | `/a` + line break + `/b` gives nil, because the line break defeats the `/\/.*\//` check even though the lexer would split it |
| `NormalizerRules.MapCompactAppend` | lib/normalizer.rb:9-11 | mapping and compacting a concatenation is the concatenation of the results, so the kept rules keep source order |
| `NormalizerRules.MapCompactSingle` | lib/normalizer.rb:9-11 | one piece contributes its rule, or nothing when it does not parse |
| `NormalizerRules.MapCompactLength` | lib/normalizer.rb:9-11 | the compacted list has at most one rule per piece |
| `NormalizerRules.ParsedRules` | lib/normalizer.rb:9-11 | `split`, `map` and `compact` together: at most one rule per field; `MapCompactAppend`, `TrailingEmptyIrrelevant` and `ParsedRulesAtPipe` state that the kept rules are the parsing pieces in source order |
| `NormalizerRules.EmptyPieceRejected` | lib/normalizer.rb:16 | an empty piece is not a rule |
| `NormalizerRules.TrailingEmptyIrrelevant` | lib/normalizer.rb:9-11 | when the empty piece does not parse, dropping trailing empty fields does not change the compacted list |
| `NormalizerRules.ParsedRulesAtPipe` | lib/normalizer.rb:9-11 | the rules of `a`, a vertical bar, then `b` (with no vertical bar in `a`) are the rule of `a`, if any, followed by the rules of `b` |
| `NormalizerRules.ApplyRules` | lib/normalizer.rb:42-56 | the fold of the rule list over a URL: the empty list leaves the URL unchanged, and a single rule is one replacement; `ApplyRulesAppend` and `ApplyRulesFirst` state that the rules act in list order, each on the previous output |
| `NormalizerRules.ApplyRulesAppend` | lib/normalizer.rb:42-56 | rewriting with two rule lists in a row is rewriting with the first list and feeding its output to the second |
| `NormalizerRules.ApplyRulesFirst` | lib/normalizer.rb:42-44 | the first rule acts on the original URL, and the remaining rules act on its output |
| `UrlNormalizer.Lex` | lib/normalizer.rb:18-32 | the two buffers together are the rule; the pattern buffer is everything before the split point and holds at most one counted slash; the substitution buffer is empty or starts with the counted slash at the split point |
| `UrlNormalizer.ParseRule` | lib/normalizer.rb:15-37 | the lexer's result equals `RuleOf`, the meaning given in `NormalizerRules` |
| `UrlNormalizer.Normalizer.constructor` | lib/normalizer.rb:6-13 | the source is kept; the rules are unset for a blank source, and otherwise they are the parsed pieces of the vertical-bar split, in order, without the rejected ones |
| `UrlNormalizer.Normalizer.Normalize` | lib/normalizer.rb:39-47 | with rules unset the URL comes back unchanged; otherwise each rule's first-match replacement is applied in list order, each to the previous output |
| `UrlNormalizer.Normalizer.NormalizeAll` | lib/normalizer.rb:49-57 | the same fold with the all-matches replacement |
| `UrlNormalizer.BlankSourceKeepsUrl` | lib/normalizer.rb:8-50 | a normalizer built from a blank (all white space) source returns every URL unchanged from both `normalize` and `normalize_all` |

## Left out

- Plugin registration, the `presence_enabled` setting, `hide_plugin` and the stylesheet asset (plugins/discourse-presence/plugin.rb:10-13). These are framework configuration with no logic.
- Fetching topics and posts through ActiveRecord (`Topic.find`, `Post.find`, `post.topic`, `pluck`). These are replaced by lookups in snapshot maps. `post.topic` is the lookup of the post's topic id. The reply and edit branches pluck different columns (`:group_id` and `:id`); both are modelled as the topic's one allowed-group list.
- The `PresenceChannel` framework is not part of this model. That covers `can_view?`/`can_enter?`, the `use_cache` descriptor cache, and turning nil into `PresenceChannel::NotFound`. `Admits` only states how the integration test reads a config's allow-lists. It is not a claim about the framework's code.
- Regular-expression semantics of rule patterns. `Regexp.new`, `String#sub` and `String#gsub` are function parameters. The engine's handling of back-references in the substitution is the engine's business.
- The error `Regexp.new` raises for an invalid pattern source. In Ruby that error escapes the constructor. The model keeps the pattern source text and does not model it.
- A nil normalizer source. `nil.present?` is false, so it behaves like a blank string; the model takes a string.
- Values of `min_trust_to_edit_wiki_post` outside trust levels 0 to 4. The setting only offers trust levels. A level missing from `AUTO_GROUPS` would append nil to the group list.
- A post without an author (nil `user_id`). Ids are modelled as integers.
- `app/services/username_overrider.rb` is not part of this model. It only branches over calls into `User.normalize_username`, `UserNameSuggester` and `UsernameChanger`, which are not modelled.
- Rails' exception classes are not modelled. The model assumes the `rescue` at plugins/discourse-presence/plugin.rb:61 catches the not-found error that `Topic.find`/`Post.find` raise.
- Concurrency and cache races. The block has none of its own.
