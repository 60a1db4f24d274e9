/** The settings routes (server/routes/settings.js). A user's settings live
    in one record keyed (userId, "SETTINGS#" + userId), which the scheduler
    reads with the same key. */
module Settings {
  import opened Common
  import opened Json
  import opened Store
  import opened Http
  import Scheduler

  /** What GET answers when the user has no settings record. Its keys are
      camel-case, unlike the stored record's. */
  const DefaultSettings: Object := map["emailFrequency" := Str("daily"), "emailAddress" := Str("")]

  /** GET /settings: the stored record unchanged, or the defaults. */
  method GetSettings(table: Table, userId: string, outage: bool) returns (resp: Response)
    ensures outage ==> resp == Error(500, "Could not fetch settings")
    ensures !outage && SettingsKey(userId) in table.items ==>
              resp == Response(200, ItemBody(table.items[SettingsKey(userId)]))
    ensures !outage && SettingsKey(userId) !in table.items ==> resp == Response(200, ItemBody(DefaultSettings))
  {
    if outage {
      return Error(500, "Could not fetch settings");
    }
    var item := table.Get(SettingsKey(userId));
    var settings := if item.Some? then item.value else DefaultSettings;
    return Response(200, ItemBody(settings));
  }

  /** The item literal of POST /settings: the key and the four fields, each
      taken from the body alone (undefined where the body leaves it out). */
  function SettingsItem(userId: string, body: Object): Draft {
    var k := SettingsKey(userId);
    map["UserId" := Some(Str(k.user)), "EntityId" := Some(Str(k.entity)),
        "EmailFrequency" := Field(body, "emailFrequency"), "EmailTime" := Field(body, "emailTime"),
        "EmailDay" := Field(body, "emailDay"), "AvatarIndex" := Field(body, "avatarIndex")]
  }

  /** The body defines all four settings. */
  predicate Complete(body: Object) {
    "emailFrequency" in body && "emailTime" in body && "emailDay" in body && "avatarIndex" in body
  }

  /** The record can be sent only when the body defines all four fields; it
      then holds the key and exactly those four values, nothing from an
      earlier record. */
  lemma StoredSettings(userId: string, body: Object)
    ensures var item := Marshal(SettingsItem(userId, body));
            && (item.Some? <==> Complete(body))
            && (item.Some? ==>
                  && HasKey(item.value, SettingsKey(userId))
                  && item.value.Keys == {"UserId", "EntityId", "EmailFrequency", "EmailTime", "EmailDay", "AvatarIndex"}
                  && item.value["EmailFrequency"] == body["emailFrequency"]
                  && item.value["EmailTime"] == body["emailTime"]
                  && item.value["EmailDay"] == body["emailDay"]
                  && item.value["AvatarIndex"] == body["avatarIndex"])
  {
    var d := SettingsItem(userId, body);
    assert "EmailFrequency" in d && "EmailTime" in d && "EmailDay" in d && "AvatarIndex" in d;
  }

  /** POST /settings: the whole record is replaced, never merged, and the
      answer carries exactly the stored record. A body that leaves a field
      out makes the send throw: 500, and nothing is written. */
  method SaveSettings(table: Table, userId: string, body: Object, outage: bool) returns (resp: Response)
    requires table.Valid()
    modifies table
    ensures table.Valid()
    ensures outage || !Complete(body) ==> resp == Error(500, "Could not save settings") && table.items == old(table.items)
    ensures !outage && Complete(body) ==>
              var item := Marshal(SettingsItem(userId, body));
              && item.Some?
              && table.items == old(table.items)[SettingsKey(userId) := item.value]
              && resp == Response(200, SavedBody(true, item.value))
  {
    StoredSettings(userId, body);
    var item := Marshal(SettingsItem(userId, body));
    if outage || item.None? {
      return Error(500, "Could not save settings");
    }
    table.Put(SettingsKey(userId), item.value);
    return Response(200, SavedBody(true, item.value));
  }

  /** Saving and then reading the settings gives back exactly the record the
      save answered with, holding the body's four values. A save that fails
      leaves what the read returns as it was. */
  method SaveThenGet(table: Table, userId: string, body: Object) returns (saved: Response, read: Response)
    requires table.Valid()
    modifies table
    ensures Complete(body) ==>
              && saved.body.SavedBody? && read == Response(200, ItemBody(saved.body.settings))
              && Field(read.body.item, "EmailFrequency") == Some(body["emailFrequency"])
              && Field(read.body.item, "EmailTime") == Some(body["emailTime"])
              && Field(read.body.item, "EmailDay") == Some(body["emailDay"])
              && Field(read.body.item, "AvatarIndex") == Some(body["avatarIndex"])
    ensures !Complete(body) ==>
              && saved == Error(500, "Could not save settings")
              && read == Response(200, ItemBody(if SettingsKey(userId) in old(table.items)
                                                then old(table.items)[SettingsKey(userId)] else DefaultSettings))
  {
    StoredSettings(userId, body);
    saved := SaveSettings(table, userId, body, false);
    read := GetSettings(table, userId, false);
  }

  /** The scheduler reads back what the settings page saved: the frequency
      as given, the time when it is a non-empty string and the default time
      when it is falsy, and the day as a number. A truthy time that is not a
      string makes the scheduler's read throw. */
  lemma SchedulerReadsSavedSettings(userId: string, body: Object)
    requires Complete(body)
    ensures var p := Scheduler.ReadPreferences(Marshal(SettingsItem(userId, body)));
            && (!Truthy(Some(body["emailTime"])) || body["emailTime"].Str? ==>
                  && p.Some?
                  && p.value.frequency == Some(body["emailFrequency"])
                  && p.value.time == (if Truthy(Some(body["emailTime"])) then body["emailTime"].s else Scheduler.DefaultTime)
                  && p.value.day == ToNumber(Some(body["emailDay"])))
            && (Truthy(Some(body["emailTime"])) && !body["emailTime"].Str? ==> p.None?)
  {
    StoredSettings(userId, body);
  }

  /** POST /settings/trigger-email: runs the excerpt e-mail for the caller
      alone, with no due-time or frequency check. The e-mail routine catches
      its own failures, so the route always answers success. */
  method TriggerEmail(table: Table, userId: string, order: seq<Key>, r: real, queryFails: bool)
    returns (resp: Response, sent: seq<Scheduler.Email>)
    requires Listing(order, table.items) && 0.0 <= r < 1.0
    ensures sent == Scheduler.ProcessUserEmail(table.items, order, userId, r, queryFails)
    ensures resp == Response(200, MessageBody("Email process triggered. Check server logs/email."))
  {
    sent := Scheduler.ProcessUserEmail(table.items, order, userId, r, queryFails);
    resp := Response(200, MessageBody("Email process triggered. Check server logs/email."));
  }
}
