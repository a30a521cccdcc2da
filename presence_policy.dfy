/**
 * The access rules of the discourse-presence channel prefix: which users and
 * groups may see a reply, whisper or edit channel.  Topics and posts are
 * snapshots looked up by id in finite maps; a missing key is ActiveRecord's
 * not-found, which the plugin's `rescue` turns into "no such channel".
 */
module PresencePolicy {
  import opened Wrappers
  import opened ChannelName

  type UserId = int
  type GroupId = int

  /** The values the `min_trust_to_edit_wiki_post` site setting can take. */
  newtype TrustLevel = x: int | 0 <= x <= 4

  /** The fields of a topic the rules read. */
  datatype Topic = Topic(
    privateMessage: bool,
    secureGroupIds: Option<seq<GroupId>>, // nil for a topic outside a read-restricted category
    allowedUserIds: seq<UserId>,
    allowedGroupIds: seq<GroupId>)

  /** The fields of a post the rules read; `topicId` is what `post.topic` follows. */
  datatype Post = Post(topicId: nat, userId: UserId, locked: bool, whisper: bool, wiki: bool)

  /** `Group::AUTO_GROUPS`: the staff group and one group per trust level 0 to 4. */
  datatype AutoGroups = AutoGroups(staff: GroupId, trustLevels: seq<GroupId>)
  type AutoGroupTable = g: AutoGroups | |g.trustLevels| == 5 witness AutoGroups(0, [0, 0, 0, 0, 0])

  function TrustLevelGroup(groups: AutoGroupTable, level: TrustLevel): GroupId {
    groups.trustLevels[level as int]
  }

  datatype SiteSettings = SiteSettings(minTrustToEditWikiPost: TrustLevel, trustedUsersCanEditOthers: bool)

  /** What `Topic.find` and `Post.find` can see. */
  datatype Store = Store(topics: map<nat, Topic>, posts: map<nat, Post>)

  /** The value of a `PresenceChannel::Config`; a fresh one is private with both lists nil. */
  datatype ChannelConfig = ChannelConfig(
    isPublic: bool,
    allowedUserIds: Option<seq<UserId>>,
    allowedGroupIds: Option<seq<GroupId>>)

  const NewConfig := ChannelConfig(false, None, None)

  /**
   * The reply rules, first match wins: a private message admits its participants
   * and staff; otherwise a non-nil `secure_group_ids` (even an empty list, which Ruby
   * treats as true) admits exactly those groups; otherwise the channel is public.
   */
  function ReplyConfig(topic: Topic, groups: AutoGroupTable): (c: ChannelConfig)
    ensures c.isPublic <==> !topic.privateMessage && topic.secureGroupIds.None?
    ensures c.isPublic ==> c.allowedUserIds.None? && c.allowedGroupIds.None?
    ensures !c.isPublic ==> c.allowedGroupIds.Some?
    ensures c.allowedUserIds.Some? <==> topic.privateMessage
  {
    if topic.privateMessage then
      NewConfig.(allowedUserIds := Some(topic.allowedUserIds),
                 allowedGroupIds := Some(topic.allowedGroupIds + [groups.staff]))
    else if topic.secureGroupIds.Some? then
      NewConfig.(allowedGroupIds := topic.secureGroupIds)
    else
      NewConfig.(isPublic := true)
  }

  /** A whisper channel is for staff only, whatever the topic. */
  function WhisperConfig(groups: AutoGroupTable): (c: ChannelConfig)
    ensures !c.isPublic && c.allowedUserIds.None? && c.allowedGroupIds == Some([groups.staff])
  {
    NewConfig.(allowedGroupIds := Some([groups.staff]))
  }

  /** Which of the edit rules applies, in the order the plugin tries them. */
  datatype EditGrant =
    | AuthorAndStaffOnly   // locked post or whisper
    | Participants         // wiki post in a private message
    | WikiTrustLevel       // wiki post elsewhere
    | TrustedEditors       // not a private message, and trusted users may edit others' posts
    | NoExtraGrant

  function EditGrantOf(post: Post, topic: Topic, settings: SiteSettings): (g: EditGrant)
    ensures g == AuthorAndStaffOnly <==> post.locked || post.whisper
    ensures g in {Participants, WikiTrustLevel} <==> post.wiki && !post.locked && !post.whisper
    ensures g == TrustedEditors ==> !post.wiki && !topic.privateMessage && settings.trustedUsersCanEditOthers
    ensures g == NoExtraGrant ==> !post.wiki && (topic.privateMessage || !settings.trustedUsersCanEditOthers)
  {
    if post.locked || post.whisper then AuthorAndStaffOnly
    else if topic.privateMessage && post.wiki then Participants
    else if post.wiki then WikiTrustLevel
    else if !topic.privateMessage && settings.trustedUsersCanEditOthers then TrustedEditors
    else NoExtraGrant
  }

  /** Users the applicable edit rule adds after the author. */
  function EditExtraUsers(grant: EditGrant, topic: Topic): seq<UserId> {
    if grant == Participants then topic.allowedUserIds else []
  }

  /** Groups the applicable edit rule adds after staff. */
  function EditExtraGroups(grant: EditGrant, topic: Topic, groups: AutoGroupTable, settings: SiteSettings): seq<GroupId> {
    match grant
    case Participants => topic.allowedGroupIds
    case WikiTrustLevel => [TrustLevelGroup(groups, settings.minTrustToEditWikiPost)]
    case TrustedEditors => [TrustLevelGroup(groups, 4)]
    case _ => []
  }

  /** An edit channel admits the author and staff, then whatever the applicable rule adds. */
  function EditConfig(post: Post, topic: Topic, groups: AutoGroupTable, settings: SiteSettings): (c: ChannelConfig)
    ensures !c.isPublic && c.allowedUserIds.Some? && c.allowedGroupIds.Some?
    ensures |c.allowedUserIds.value| >= 1 && c.allowedUserIds.value[0] == post.userId
    ensures |c.allowedGroupIds.value| >= 1 && c.allowedGroupIds.value[0] == groups.staff
  {
    var grant := EditGrantOf(post, topic, settings);
    NewConfig.(allowedUserIds := Some([post.userId] + EditExtraUsers(grant, topic)),
               allowedGroupIds := Some([groups.staff] + EditExtraGroups(grant, topic, groups, settings)))
  }

  /** The records a parsed reference needs are all present. */
  predicate RecordsExist(ref: ChannelRef, store: Store) {
    match ref
    case Reply(id) => id in store.topics
    case Whisper(id) => id in store.topics
    case Edit(id) => id in store.posts && store.posts[id].topicId in store.topics
  }

  /** Look up the records a channel reference needs and apply its rules; None when one is missing. */
  function Evaluate(ref: ChannelRef, store: Store, groups: AutoGroupTable, settings: SiteSettings): (r: Option<ChannelConfig>)
    ensures r.None? <==> !RecordsExist(ref, store)
    ensures r.Some? && r.value.isPublic ==> ref.Reply?
  {
    match ref
    case Reply(id) =>
      if id in store.topics then Some(ReplyConfig(store.topics[id], groups)) else None
    case Whisper(id) =>
      if id in store.topics then Some(WhisperConfig(groups)) else None
    case Edit(id) =>
      if id !in store.posts then None
      else
        var post := store.posts[id];
        if post.topicId !in store.topics then None
        else Some(EditConfig(post, store.topics[post.topicId], groups, settings))
  }

  /** The block registered for the prefix: a config, or None for "no such channel". */
  function GetConfig(name: string, store: Store, groups: AutoGroupTable, settings: SiteSettings): (r: Option<ChannelConfig>)
    ensures Parse(name).None? ==> r.None?
    ensures r.Some? && r.value.isPublic ==> Parse(name).value.Reply?
  {
    match Parse(name)
    case None => None
    case Some(ref) => Evaluate(ref, store, groups, settings)
  }

  /** No channel exactly when the name is not recognised or a record it needs is missing. */
  lemma NoChannelIff(name: string, store: Store, groups: AutoGroupTable, settings: SiteSettings)
    ensures GetConfig(name, store, groups, settings).None? <==>
      Parse(name).None? || !RecordsExist(Parse(name).value, store)
  {
  }

  /** `reply/-999` and `reply/blah` have no channel, whatever is stored. */
  lemma InvalidReplyIdsHaveNoChannel(store: Store, groups: AutoGroupTable, settings: SiteSettings)
    ensures GetConfig("/discourse-presence/reply/-999", store, groups, settings) == None
    ensures GetConfig("/discourse-presence/reply/blah", store, groups, settings) == None
  {
    InvalidReplyIds();
  }

  lemma ReplyPrivateMessage(name: string, id: nat, store: Store, groups: AutoGroupTable, settings: SiteSettings)
    requires Parse(name) == Some(Reply(id)) && id in store.topics && store.topics[id].privateMessage
    ensures GetConfig(name, store, groups, settings) ==
      Some(ChannelConfig(false, Some(store.topics[id].allowedUserIds),
                         Some(store.topics[id].allowedGroupIds + [groups.staff])))
  {
  }

  lemma ReplySecureGroups(name: string, id: nat, store: Store, groups: AutoGroupTable, settings: SiteSettings)
    requires Parse(name) == Some(Reply(id)) && id in store.topics
    requires !store.topics[id].privateMessage && store.topics[id].secureGroupIds.Some?
    ensures GetConfig(name, store, groups, settings) ==
      Some(ChannelConfig(false, None, store.topics[id].secureGroupIds))
  {
  }

  /** An empty `secure_group_ids` list still makes the reply channel private, admitting nobody by group. */
  lemma ReplyEmptySecureGroups(name: string, id: nat, store: Store, groups: AutoGroupTable, settings: SiteSettings)
    requires Parse(name) == Some(Reply(id)) && id in store.topics
    requires !store.topics[id].privateMessage && store.topics[id].secureGroupIds == Some([])
    ensures GetConfig(name, store, groups, settings) == Some(ChannelConfig(false, None, Some([])))
  {
  }

  lemma ReplyPublic(name: string, id: nat, store: Store, groups: AutoGroupTable, settings: SiteSettings)
    requires Parse(name) == Some(Reply(id)) && id in store.topics
    requires !store.topics[id].privateMessage && store.topics[id].secureGroupIds.None?
    ensures GetConfig(name, store, groups, settings) == Some(ChannelConfig(true, None, None))
  {
  }

  /** Any existing topic gives the staff-only whisper channel; its fields are never read. */
  lemma WhisperIgnoresTopic(name: string, id: nat, t1: Topic, t2: Topic, store: Store,
                            groups: AutoGroupTable, settings: SiteSettings)
    requires Parse(name) == Some(Whisper(id))
    ensures GetConfig(name, store.(topics := store.topics[id := t1]), groups, settings) ==
            GetConfig(name, store.(topics := store.topics[id := t2]), groups, settings) ==
            Some(ChannelConfig(false, None, Some([groups.staff])))
  {
  }

  /** A locked post or a whisper admits only its author and staff, even when it is a wiki. */
  lemma EditLockedOrWhisper(name: string, id: nat, store: Store, groups: AutoGroupTable, settings: SiteSettings)
    requires Parse(name) == Some(Edit(id)) && RecordsExist(Edit(id), store)
    requires store.posts[id].locked || store.posts[id].whisper
    ensures GetConfig(name, store, groups, settings) ==
      Some(ChannelConfig(false, Some([store.posts[id].userId]), Some([groups.staff])))
  {
    var post := store.posts[id];
    assert [post.userId] + [] == [post.userId];
    assert [groups.staff] + [] == [groups.staff];
  }

  /** A wiki post in a private message adds every participant user and group. */
  lemma EditPrivateMessageWiki(name: string, id: nat, store: Store, groups: AutoGroupTable, settings: SiteSettings)
    requires Parse(name) == Some(Edit(id)) && RecordsExist(Edit(id), store)
    requires var post := store.posts[id];
      !post.locked && !post.whisper && post.wiki && store.topics[post.topicId].privateMessage
    ensures var post := store.posts[id]; var topic := store.topics[post.topicId];
      GetConfig(name, store, groups, settings) ==
      Some(ChannelConfig(false, Some([post.userId] + topic.allowedUserIds),
                         Some([groups.staff] + topic.allowedGroupIds)))
  {
  }

  /** A wiki post outside private messages adds the group of the wiki-editing trust level. */
  lemma EditWiki(name: string, id: nat, store: Store, groups: AutoGroupTable, settings: SiteSettings)
    requires Parse(name) == Some(Edit(id)) && RecordsExist(Edit(id), store)
    requires var post := store.posts[id];
      !post.locked && !post.whisper && post.wiki && !store.topics[post.topicId].privateMessage
    ensures GetConfig(name, store, groups, settings) ==
      Some(ChannelConfig(false, Some([store.posts[id].userId]),
                         Some([groups.staff, TrustLevelGroup(groups, settings.minTrustToEditWikiPost)])))
  {
    var post := store.posts[id];
    assert [post.userId] + [] == [post.userId];
    var g := TrustLevelGroup(groups, settings.minTrustToEditWikiPost);
    assert [groups.staff] + [g] == [groups.staff, g];
  }

  /** Outside private messages, a plain post adds trust level 4 exactly when trusted users may edit others' posts. */
  lemma EditPlainPost(name: string, id: nat, store: Store, groups: AutoGroupTable, settings: SiteSettings)
    requires Parse(name) == Some(Edit(id)) && RecordsExist(Edit(id), store)
    requires var post := store.posts[id];
      !post.locked && !post.whisper && !post.wiki && !store.topics[post.topicId].privateMessage
    ensures GetConfig(name, store, groups, settings) ==
      Some(ChannelConfig(false, Some([store.posts[id].userId]),
        Some(if settings.trustedUsersCanEditOthers then [groups.staff, TrustLevelGroup(groups, 4)]
             else [groups.staff])))
  {
    var post := store.posts[id];
    assert [post.userId] + [] == [post.userId];
    assert [groups.staff] + [] == [groups.staff];
    var g := TrustLevelGroup(groups, 4);
    assert [groups.staff] + [g] == [groups.staff, g];
  }

  /** A plain post in a private message admits only its author and staff. */
  lemma EditPrivateMessagePlainPost(name: string, id: nat, store: Store, groups: AutoGroupTable, settings: SiteSettings)
    requires Parse(name) == Some(Edit(id)) && RecordsExist(Edit(id), store)
    requires var post := store.posts[id];
      !post.wiki && store.topics[post.topicId].privateMessage
    ensures GetConfig(name, store, groups, settings) ==
      Some(ChannelConfig(false, Some([store.posts[id].userId]), Some([groups.staff])))
  {
    var post := store.posts[id];
    assert [post.userId] + [] == [post.userId];
    assert [groups.staff] + [] == [groups.staff];
  }

  /** A post whose topic is gone has no edit channel, rather than a config without the topic's rules. */
  lemma EditOrphanPost(name: string, id: nat, store: Store, groups: AutoGroupTable, settings: SiteSettings)
    requires Parse(name) == Some(Edit(id)) && id in store.posts
    requires store.posts[id].topicId !in store.topics
    ensures GetConfig(name, store, groups, settings) == None
  {
  }

  /**
   * Who a config admits, as the integration test reads it off the presence framework:
   * everyone for a public config, else a listed user or a member of a listed group.
   * The framework's own check is not part of this model.
   */
  datatype Principal = Principal(userId: UserId, groupIds: set<GroupId>)

  predicate Admits(c: ChannelConfig, p: Principal) {
    || c.isPublic
    || (c.allowedUserIds.Some? && p.userId in c.allowedUserIds.value)
    || (c.allowedGroupIds.Some? && exists g :: g in p.groupIds && g in c.allowedGroupIds.value)
  }

  /** A secure topic's reply channel admits a user exactly when they belong to one of its groups. */
  lemma ReplySecureAdmitsGroupMembers(name: string, id: nat, store: Store, groups: AutoGroupTable,
                                      settings: SiteSettings, p: Principal)
    requires Parse(name) == Some(Reply(id)) && id in store.topics
    requires !store.topics[id].privateMessage && store.topics[id].secureGroupIds.Some?
    ensures GetConfig(name, store, groups, settings).Some?
    ensures Admits(GetConfig(name, store, groups, settings).value, p) <==>
      exists g :: g in p.groupIds && g in store.topics[id].secureGroupIds.value
  {
  }

  /** Every edit channel admits the post's author and every staff member, never everyone. */
  lemma EditAdmitsAuthorAndStaff(name: string, id: nat, store: Store, groups: AutoGroupTable,
                                 settings: SiteSettings, p: Principal)
    requires Parse(name) == Some(Edit(id)) && RecordsExist(Edit(id), store)
    requires p.userId == store.posts[id].userId || groups.staff in p.groupIds
    ensures GetConfig(name, store, groups, settings).Some?
    ensures !GetConfig(name, store, groups, settings).value.isPublic
    ensures Admits(GetConfig(name, store, groups, settings).value, p)
  {
    var c := GetConfig(name, store, groups, settings).value;
    if p.userId != store.posts[id].userId {
      assert groups.staff in p.groupIds && groups.staff in c.allowedGroupIds.value;
    }
  }
}
