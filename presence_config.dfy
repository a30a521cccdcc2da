/**
 * The presence-channel block as it runs: it builds a `PresenceChannel::Config`
 * object field by field, grows the edit channel's lists in place, and answers
 * nil when the name is not recognised or a record is missing.  The method is
 * proved to produce exactly the config `PresencePolicy.GetConfig` describes.
 */
module PresenceConfig {
  import opened Wrappers
  import opened ChannelName
  import opened PresencePolicy

  /** `PresenceChannel::Config`: the three fields the plugin writes. */
  class Config {
    var isPublic: bool
    var allowedUserIds: Option<seq<UserId>>
    var allowedGroupIds: Option<seq<GroupId>>

    function Value(): ChannelConfig
      reads this
    {
      ChannelConfig(isPublic, allowedUserIds, allowedGroupIds)
    }

    /** `Config.new`: private, no lists. */
    constructor ()
      ensures Value() == NewConfig
    {
      isPublic := false;
      allowedUserIds := None;
      allowedGroupIds := None;
    }

    /** `Config.new(allowed_group_ids: ids)`. */
    constructor WithGroups(ids: seq<GroupId>)
      ensures Value() == NewConfig.(allowedGroupIds := Some(ids))
    {
      isPublic := false;
      allowedUserIds := None;
      allowedGroupIds := Some(ids);
    }
  }

  /** The block registered for the `discourse-presence` prefix; null stands for nil. */
  method Resolve(name: string, store: Store, groups: AutoGroupTable, settings: SiteSettings)
    returns (config: Config?)
    ensures config == null <==> GetConfig(name, store, groups, settings).None?
    ensures config != null ==> fresh(config) && config.Value() == GetConfig(name, store, groups, settings).value
  {
    var replyId := Capture(name, ReplyPrefix);
    if replyId.Some? {
      var topicId := DecimalValue(replyId.value);
      if topicId !in store.topics { return null; }
      var topic := store.topics[topicId];
      config := new Config();
      if topic.privateMessage {
        config.allowedUserIds := Some(topic.allowedUserIds);
        config.allowedGroupIds := Some(topic.allowedGroupIds + [groups.staff]);
      } else if topic.secureGroupIds.Some? {
        config.allowedGroupIds := topic.secureGroupIds;
      } else {
        config.isPublic := true;
      }
      return;
    }
    var whisperId := Capture(name, WhisperPrefix);
    if whisperId.Some? {
      var topicId := DecimalValue(whisperId.value);
      if topicId !in store.topics { return null; }
      config := new Config.WithGroups([groups.staff]);
      return;
    }
    var editId := Capture(name, EditPrefix);
    if editId.Some? {
      var postId := DecimalValue(editId.value);
      if postId !in store.posts { return null; }
      var post := store.posts[postId];
      if post.topicId !in store.topics { return null; }
      var topic := store.topics[post.topicId];
      config := new Config();
      config.allowedUserIds := Some([post.userId]);
      config.allowedGroupIds := Some([groups.staff]);
      if post.locked || post.whisper {
        // no additional users or groups
      } else if topic.privateMessage && post.wiki {
        config.allowedUserIds := Some(config.allowedUserIds.value + topic.allowedUserIds);
        config.allowedGroupIds := Some(config.allowedGroupIds.value + topic.allowedGroupIds);
      } else if post.wiki {
        config.allowedGroupIds := Some(config.allowedGroupIds.value + [TrustLevelGroup(groups, settings.minTrustToEditWikiPost)]);
      } else if !topic.privateMessage && settings.trustedUsersCanEditOthers {
        config.allowedGroupIds := Some(config.allowedGroupIds.value + [TrustLevelGroup(groups, 4)]);
      }
      ghost var grant := EditGrantOf(post, topic, settings);
      assert [post.userId] + [] == [post.userId] && [groups.staff] + [] == [groups.staff];
      assert config.allowedUserIds.value == [post.userId] + EditExtraUsers(grant, topic);
      assert config.allowedGroupIds.value == [groups.staff] + EditExtraGroups(grant, topic, groups, settings);
      return;
    }
    return null;
  }
}
