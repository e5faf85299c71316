/**
 Short runs of the coordinator that show behaviour the handlers have as written:
 the creator of a room is not one of its members, and a username rename reaches a
 history array shared by two keys twice.
 */
module Scenarios {
  import opened JsString
  import opened ChatState
  import opened ChatServer

  /**
   alice creates "lobby" and bob joins it: the presence list names bob only, since
   `create_room` leaves the member list empty.
   */
  method CreatorNotListed() returns (presence: seq<Option<string>>)
    ensures presence == [Some("bob")]
  {
    var c := new Coordinator();
    c.Register("s1", "alice");
    c.Register("s2", "bob");
    c.CreateRoom("s1", "lobby", 0, ["lobby"]);
    c.JoinRoom("s2", "lobby", 1000);
    assert c.rooms["lobby"].members == ["s2"];
    presence := c.roomUsers["lobby"];
  }

  /**
   After "r" is renamed to "s", both keys refer to one array; renaming the user "bob"
   to "bobby" then rewrites its message once per key, giving "bobbyby".
   */
  lemma RenameReachesSharedTwice()
    ensures var refs: map<string, nat> := map["r" := 0, "s" := 0];
      var logs := map["r" := [Message("r", "bob")], "s" := [Message("r", "bob")]];
      RewriteAll(refs, logs, ["r", "s"], "bob", "bobby")["s"] == [Message("r", "bobbyby")]
  {
    var refs: map<string, nat> := map["r" := 0, "s" := 0];
    var logs := map["r" := [Message("r", "bob")], "s" := [Message("r", "bob")]];
    BothKeysCount(refs);
    RewriteTwice();
    assert "s" in logs && logs["s"] == [Message("r", "bob")];
    assert RewriteAll(refs, logs, ["r", "s"], "bob", "bobby")["s"]
        == RewriteN(logs["s"], "bob", "bobby", CountAliases(["r", "s"], refs, refs["s"]));
  }

  /** Both keys refer to array 0, so the loop over them reaches it twice. */
  lemma BothKeysCount(refs: map<string, nat>)
    requires refs == map["r" := 0, "s" := 0]
    ensures CountAliases(["r", "s"], refs, refs["s"]) == 2
  {
    assert ["r", "s"][..1] == ["r"];
    assert ["r"][..0] == [];
    assert CountAliases(["r"], refs, 0) == CountAliases([], refs, 0) + 1 == 1;
    assert CountAliases(["r", "s"], refs, 0) == CountAliases(["r"], refs, 0) + 1;
  }

  /** The message rewritten twice. */
  lemma RewriteTwice()
    ensures RewriteN([Message("r", "bob")], "bob", "bobby", 2) == [Message("r", "bobbyby")]
  {
    var h := [Message("r", "bob")];
    ReplaceFirstTwice();
    assert RewriteN(h, "bob", "bobby", 0) == h;
    assert Rewritten(h, "bob", "bobby") == [Message("r", "bobby")];
    assert Rewritten([Message("r", "bobby")], "bob", "bobby") == [Message("r", "bobbyby")];
  }

  /** A room just created is in the `/api/rooms` answer. */
  lemma CreatedIsListed(rooms: map<string, Room>, name: string, owner: ConnId, now: int, order: seq<string>)
    requires name in order
    ensures name in ActiveRooms(rooms[name := Room(owner, [], true, now)], order)
  {
  }

  /** A room just deleted is not. */
  lemma DeletedIsNotListed(rooms: map<string, Room>, name: string, order: seq<string>)
    requires name in rooms
    ensures name !in ActiveRooms(rooms[name := rooms[name].(active := false)], order)
  {
  }
}
