/** The in-memory table of per-user conversations, keyed by user id. The
    table is a dictionary that the methods update in place; `order` keeps
    its keys in insertion order, as a Python dictionary does. */
module Conversations {
  import opened PyText

  /** `UserConversation`, without its creation time. */
  datatype UserConversation = UserConversation(
    userId: string,
    username: string,
    conversationId: Option<string>,
    messageCount: nat)

  /** A new record: no server-side conversation yet and no messages. */
  function Fresh(userId: string, username: string): (c: UserConversation)
    ensures c.userId == userId && c.username == username
    ensures c.conversationId == None && c.messageCount == 0
  {
    UserConversation(userId, username, None, 0)
  }

  /** The dictionary `get_stats` returns. */
  datatype Stats = Stats(totalConversations: nat, totalMessages: nat, activeUsers: seq<string>)

  /** `sum(conv.message_count for conv in ...)`, over the keys `keys`. */
  function TotalMessages(keys: seq<string>, m: map<string, UserConversation>): nat
    requires forall k :: k in keys ==> k in m
  {
    if keys == [] then 0 else m[keys[0]].messageCount + TotalMessages(keys[1..], m)
  }

  /** `keys` without `x`. */
  function Remove(keys: seq<string>, x: string): (r: seq<string>)
    ensures forall k :: k in r <==> k in keys && k != x
  {
    if keys == [] then [] else (if keys[0] == x then [] else [keys[0]]) + Remove(keys[1..], x)
  }

  predicate Distinct(keys: seq<string>) {
    forall i, j :: 0 <= i < j < |keys| ==> keys[i] != keys[j]
  }

  class ConversationManager {
    /** `_conversations` */
    var conversations: map<string, UserConversation>
    /** The keys of `conversations`, oldest first. */
    var order: seq<string>

    /** Every record sits under its own user id, and `order` lists each key
        exactly once. */
    predicate Valid()
      reads this
    {
      (forall u :: u in conversations ==> conversations[u].userId == u) &&
      Distinct(order) &&
      (forall u :: u in order ==> u in conversations) &&
      (forall u :: u in conversations ==> u in order)
    }

    /** The sum of all message counts. */
    function Total(): nat
      reads this
      requires Valid()
    {
      TotalMessages(order, conversations)
    }

    constructor()
      ensures Valid()
      ensures conversations == map[] && order == []
    {
      conversations := map[];
      order := [];
    }

    /** `get_or_create_conversation` */
    method GetOrCreateConversation(userId: string, username: string) returns (c: UserConversation)
      requires Valid()
      modifies this
      ensures Valid()
      ensures userId in conversations && c == conversations[userId]
      ensures userId in old(conversations) ==> conversations == old(conversations) && order == old(order)
      ensures userId !in old(conversations) ==>
        conversations == old(conversations)[userId := Fresh(userId, username)] && order == old(order) + [userId]
      ensures Total() == old(Total())
    {
      if userId !in conversations {
        TotalInsertFresh(order, conversations, userId, username);
        conversations := conversations[userId := Fresh(userId, username)];
        order := order + [userId];
      }
      c := conversations[userId];
    }

    /** `create_new_conversation`: a fresh record replaces any old one; a key
        already present keeps its place in the order. */
    method CreateNewConversation(userId: string, username: string) returns (c: UserConversation)
      requires Valid()
      modifies this
      ensures Valid()
      ensures c == Fresh(userId, username)
      ensures conversations == old(conversations)[userId := c]
      ensures order == if userId in old(conversations) then old(order) else old(order) + [userId]
      ensures userId in old(conversations) ==> Total() + old(conversations[userId].messageCount) == old(Total())
      ensures userId !in old(conversations) ==> Total() == old(Total())
    {
      c := Fresh(userId, username);
      if userId in conversations {
        TotalReplace(order, conversations, userId, c);
        conversations := conversations[userId := c];
      } else {
        TotalInsertFresh(order, conversations, userId, username);
        conversations := conversations[userId := c];
        order := order + [userId];
      }
    }

    /** `update_conversation_id` */
    method UpdateConversationId(userId: string, conversationId: string)
      requires Valid()
      modifies this
      ensures Valid()
      ensures order == old(order)
      ensures userId in old(conversations) ==>
        conversations == old(conversations)[userId := old(conversations[userId]).(conversationId := Some(conversationId))]
      ensures userId !in old(conversations) ==> conversations == old(conversations)
      ensures Total() == old(Total())
    {
      if userId in conversations {
        var c := conversations[userId];
        TotalReplace(order, conversations, userId, c.(conversationId := Some(conversationId)));
        conversations := conversations[userId := c.(conversationId := Some(conversationId))];
      }
    }

    /** `get_conversation` */
    method GetConversation(userId: string) returns (r: Option<UserConversation>)
      requires Valid()
      ensures r.Some? <==> userId in conversations
      ensures r.Some? ==> r.value == conversations[userId] && r.value.userId == userId
    {
      if userId in conversations {
        r := Some(conversations[userId]);
      } else {
        r := None;
      }
    }

    /** `clear_conversation` */
    method ClearConversation(userId: string)
      requires Valid()
      modifies this
      ensures Valid()
      ensures conversations == old(conversations) - {userId}
      ensures order == Remove(old(order), userId)
      ensures userId in old(conversations) ==> Total() + old(conversations[userId].messageCount) == old(Total())
      ensures userId !in old(conversations) ==> conversations == old(conversations) && order == old(order)
    {
      if userId in conversations {
        TotalRemove(order, conversations, userId);
        conversations := conversations - {userId};
        order := Remove(order, userId);
        RemoveDistinct(old(order), userId);
      } else {
        RemoveAbsent(order, userId);
        assert conversations - {userId} == conversations;
      }
    }

    /** `increment_message_count` */
    method IncrementMessageCount(userId: string)
      requires Valid()
      modifies this
      ensures Valid()
      ensures order == old(order)
      ensures userId in old(conversations) ==>
        conversations == old(conversations)[userId := old(conversations[userId]).(messageCount := old(conversations[userId].messageCount) + 1)]
      ensures userId !in old(conversations) ==> conversations == old(conversations)
      ensures Total() == old(Total()) + (if userId in old(conversations) then 1 else 0)
    {
      if userId in conversations {
        var c := conversations[userId];
        TotalReplace(order, conversations, userId, c.(messageCount := c.messageCount + 1));
        conversations := conversations[userId := c.(messageCount := c.messageCount + 1)];
      }
    }

    /** `get_all_conversations`: a copy of the table. */
    method GetAllConversations() returns (m: map<string, UserConversation>)
      requires Valid()
      ensures m == conversations
      ensures forall u :: u in m ==> m[u].userId == u
    {
      m := conversations;
    }

    /** `get_stats` */
    method GetStats() returns (s: Stats)
      requires Valid()
      ensures s.totalConversations == |conversations| == |s.activeUsers|
      ensures s.totalMessages == TotalMessages(order, conversations)
      ensures Distinct(s.activeUsers) && forall u :: u in s.activeUsers <==> u in conversations
      ensures s.activeUsers == order
    {
      KeysCount(order, conversations);
      s := Stats(|conversations|, TotalMessages(order, conversations), order);
    }
  }

  // ----- the message total -----

  lemma {:induction false} TotalAppend(a: seq<string>, b: seq<string>, m: map<string, UserConversation>)
    requires forall k :: k in a + b ==> k in m
    ensures TotalMessages(a + b, m) == TotalMessages(a, m) + TotalMessages(b, m)
  {
    if a != [] {
      assert (a + b)[0] == a[0];
      assert (a + b)[1..] == a[1..] + b;
      TotalAppend(a[1..], b, m);
    } else {
      assert a + b == b;
    }
  }

  /** The total only reads the records under `keys`. */
  lemma {:induction false} TotalFrame(keys: seq<string>, m1: map<string, UserConversation>, m2: map<string, UserConversation>)
    requires forall k :: k in keys ==> k in m1 && k in m2 && m1[k].messageCount == m2[k].messageCount
    ensures TotalMessages(keys, m1) == TotalMessages(keys, m2)
  {
    if keys != [] {
      TotalFrame(keys[1..], m1, m2);
    }
  }

  /** Adding a fresh record under a new key leaves the total as it was. */
  lemma {:induction false} TotalInsertFresh(keys: seq<string>, m: map<string, UserConversation>, u: string, name: string)
    requires forall k :: k in keys ==> k in m
    requires u !in keys
    ensures TotalMessages(keys + [u], m[u := Fresh(u, name)]) == TotalMessages(keys, m)
  {
    var m' := m[u := Fresh(u, name)];
    TotalAppend(keys, [u], m');
    TotalFrame(keys, m', m);
    assert TotalMessages([u], m') == 0 + TotalMessages([], m');
  }

  /** Replacing the record under a key listed once changes the total by the
      difference of the two counts. */
  lemma {:induction false} TotalReplace(keys: seq<string>, m: map<string, UserConversation>, u: string, c: UserConversation)
    requires forall k :: k in keys ==> k in m
    requires Distinct(keys) && u in keys
    ensures TotalMessages(keys, m[u := c]) + m[u].messageCount == TotalMessages(keys, m) + c.messageCount
  {
    var m' := m[u := c];
    if keys[0] == u {
      assert u !in keys[1..] by {
        forall j | 0 <= j < |keys[1..]| ensures keys[1..][j] != u {
          assert keys[1..][j] == keys[j + 1];
        }
      }
      TotalFrame(keys[1..], m', m);
    } else {
      assert u in keys[1..] by {
        var i :| 0 <= i < |keys| && keys[i] == u;
        assert keys[1..][i - 1] == u;
      }
      DistinctTail(keys);
      TotalReplace(keys[1..], m, u, c);
    }
  }

  /** Removing a key listed once takes its count off the total. */
  lemma {:induction false} TotalRemove(keys: seq<string>, m: map<string, UserConversation>, u: string)
    requires forall k :: k in keys ==> k in m
    requires Distinct(keys) && u in keys
    ensures TotalMessages(Remove(keys, u), m - {u}) + m[u].messageCount == TotalMessages(keys, m)
  {
    var m' := m - {u};
    if keys[0] == u {
      assert u !in keys[1..] by {
        forall j | 0 <= j < |keys[1..]| ensures keys[1..][j] != u {
          assert keys[1..][j] == keys[j + 1];
        }
      }
      RemoveAbsent(keys[1..], u);
      assert Remove(keys, u) == keys[1..];
      TotalFrame(keys[1..], m', m);
    } else {
      assert u in keys[1..] by {
        var i :| 0 <= i < |keys| && keys[i] == u;
        assert keys[1..][i - 1] == u;
      }
      DistinctTail(keys);
      TotalRemove(keys[1..], m, u);
      assert Remove(keys, u) == [keys[0]] + Remove(keys[1..], u);
    }
  }

  // ----- key lists -----

  lemma {:induction false} DistinctTail(keys: seq<string>)
    requires keys != [] && Distinct(keys)
    ensures Distinct(keys[1..])
  {
    forall i, j | 0 <= i < j < |keys[1..]| ensures keys[1..][i] != keys[1..][j] {
      assert keys[1..][i] == keys[i + 1] && keys[1..][j] == keys[j + 1];
    }
  }

  /** Removing an absent key changes nothing. */
  lemma {:induction false} RemoveAbsent(keys: seq<string>, x: string)
    requires x !in keys
    ensures Remove(keys, x) == keys
  {
    if keys != [] {
      RemoveAbsent(keys[1..], x);
      assert [keys[0]] + keys[1..] == keys;
    }
  }

  /** Removing a key keeps the list duplicate-free. */
  lemma {:induction false} RemoveDistinct(keys: seq<string>, x: string)
    requires Distinct(keys)
    ensures Distinct(Remove(keys, x))
  {
    if keys != [] {
      DistinctTail(keys);
      RemoveDistinct(keys[1..], x);
      var rest := Remove(keys[1..], x);
      if keys[0] != x {
        assert keys[0] !in rest by {
          assert keys[0] !in keys[1..] by {
            forall j | 0 <= j < |keys[1..]| ensures keys[1..][j] != keys[0] {
              assert keys[1..][j] == keys[j + 1];
            }
          }
        }
        var r := [keys[0]] + rest;
        forall i, j | 0 <= i < j < |r| ensures r[i] != r[j] {
          if i == 0 {
            assert r[j] == rest[j - 1];
          } else {
            assert r[i] == rest[i - 1] && r[j] == rest[j - 1];
          }
        }
      } else {
        assert Remove(keys, x) == rest;
      }
    }
  }

  /** A duplicate-free list of exactly the table's keys is as long as the
      table is large. */
  lemma {:induction false} KeysCount(keys: seq<string>, m: map<string, UserConversation>)
    requires Distinct(keys) && forall u :: u in keys <==> u in m
    ensures |keys| == |m|
  {
    ElementsCount(keys);
    assert m.Keys == (set k | k in keys);
  }

  lemma {:induction false} ElementsCount(keys: seq<string>)
    requires Distinct(keys)
    ensures |(set k | k in keys)| == |keys|
  {
    if keys != [] {
      DistinctTail(keys);
      ElementsCount(keys[1..]);
      assert keys[0] !in keys[1..] by {
        forall j | 0 <= j < |keys[1..]| ensures keys[1..][j] != keys[0] {
          assert keys[1..][j] == keys[j + 1];
        }
      }
      assert (set k | k in keys) == (set k | k in keys[1..]) + {keys[0]};
    }
  }
}
