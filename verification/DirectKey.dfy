/** Direct conversations: the canonical key of a set of participants, and one conversation per key. */
module DirectKey {
  import opened Wrappers
  import opened GoText

  // ---------------------------------------------------------------- the participants

  /** Who a request names: trimmed, without the blank ones. */
  function Named(ids: seq<string>): set<string> {
    if ids == [] then {}
    else
      var id := TrimSpace(ids[|ids| - 1]);
      Named(ids[..|ids| - 1]) + if id == "" then {} else {id}
  }

  function Participants(actor: string, ids: seq<string>): set<string> { Named(ids + [actor]) }

  /** The participants in increasing order; GoText.IncreasingUnique says that there is one such list. */
  ghost predicate Canonical(list: seq<string>, people: set<string>) { Increasing(list) && Elements(list) == people }

  lemma Push(list: seq<string>, id: string)
    ensures Elements(list + [id]) == Elements(list) + {id}
    ensures Distinct(list) && id !in Elements(list) ==> Distinct(list + [id])
  {
    assert forall k | k in list :: k in Elements(list);
  }

  method NormalizeParticipants(actor: string, ids: seq<string>) returns (result: seq<string>)
    ensures Canonical(result, Participants(actor, ids))
  {
    hide TrimSpace, Distinct, Elements, Increasing, SortStrings;
    var all := ids + [actor];
    var seen: set<string> := {};
    result := [];
    Empty();
    for k := 0 to |all|
      invariant Distinct(result) && Elements(result) == seen == Named(all[..k])
    {
      assert all[..k + 1][..k] == all[..k] && all[..k + 1][k] == all[k];
      var id := TrimSpace(all[k]);
      if id == "" || id in seen {
        continue;
      }
      Push(result, id);
      seen := seen + {id};
      result := result + [id];
    }
    assert all[..|all|] == all;
    SortSorts(result);
    result := SortStrings(result);
  }

  lemma Empty()
    ensures Distinct<string>([]) && Elements<string>([]) == {}
  {}

  /** Order, repetitions, blanks and who asks do not matter: only the set does. */
  lemma NamedIsTheSet(ids: seq<string>, id: string)
    ensures id in Named(ids) <==> id != "" && exists k :: 0 <= k < |ids| && TrimSpace(ids[k]) == id
    decreases |ids|
  {
    hide TrimSpace;
    if ids != [] {
      var n := |ids| - 1;
      NamedIsTheSet(ids[..n], id);
      assert forall k | 0 <= k < n :: ids[..n][k] == ids[k];
    }
  }

  /** The participants are the actor and whoever is named, trimmed, but for blank ids. */
  lemma ParticipantsExactly(actor: string, ids: seq<string>, id: string)
    ensures id in Participants(actor, ids)
            <==> id != "" && (id == TrimSpace(actor) || exists k :: 0 <= k < |ids| && TrimSpace(ids[k]) == id)
  {
    var all := ids + [actor];
    NamedIsTheSet(all, id);
    assert all[|ids|] == actor && forall k | 0 <= k < |ids| :: all[k] == ids[k];
    hide TrimSpace;
  }

  // ---------------------------------------------------------------- the key

  function Key(list: seq<string>): string { Join(list, ":") }

  predicate ColonFree(people: set<string>) { forall p | p in people :: ':' !in p }

  lemma CanonicalSize(list: seq<string>, people: set<string>)
    requires Canonical(list, people)
    ensures |list| == |people|
  {
    hide Less;
    forall i, j | 0 <= i < j < |list| ensures list[i] != list[j] { LessTotal(list[i], list[j]); }
    DistinctSize(list);
  }

  lemma {:induction false} DistinctSize(list: seq<string>)
    requires Distinct(list)
    ensures |Elements(list)| == |list|
  {
    if list != [] {
      var front, last := list[..|list| - 1], list[|list| - 1];
      DistinctSize(front);
      assert list == front + [last];
      assert last !in front;
      Push(front, last);
    }
  }

  /** Two lists of participants have the same key exactly when they are the same set, if no id holds a colon. */
  lemma KeyIsTheSet(a: seq<string>, b: seq<string>, as_: set<string>, bs: set<string>)
    requires Canonical(a, as_) && Canonical(b, bs) && as_ != {} && bs != {} && ColonFree(as_) && ColonFree(bs)
    ensures Key(a) == Key(b) <==> as_ == bs
  {
    hide Increasing, Join, Split;
    NoElements(a);
    NoElements(b);
    if Key(a) == Key(b) {
      KeySplits(a, as_);
      KeySplits(b, bs);
    }
    if as_ == bs { IncreasingUnique(a, b); }
  }

  lemma KeySplits(list: seq<string>, people: set<string>)
    requires list != [] && Elements(list) == people && ColonFree(people)
    ensures Split(Key(list), ':') == list
  {
    forall k | 0 <= k < |list| ensures ':' !in list[k] { assert list[k] in Elements(list); }
    SplitJoin(list, ':');
  }

  // ---------------------------------------------------------------- opening a conversation

  datatype Kind = OneToOne | Group
  datatype Error = ValidationError | Forbidden | ContactFailed

  /** What CreateDirect asks the repository for. */
  datatype Direct = Direct(key: string, kind: Kind, members: seq<string>)

  /** HasAcceptedContact: None is an error, and it is one unless both ids can be read as UUIDs, which hold no colon. */
  type Contacts = (string, string) -> Option<bool>

  ghost predicate CastsToUUID(contact: Contacts) { forall a, p :: contact(a, p).Some? ==> ':' !in a && ':' !in p }

  /** What the first participant that is no contact gives, in the order of the list. */
  function FirstRefusal(list: seq<string>, me: string, contact: Contacts): Option<Error> {
    if list == [] then None
    else if list[0] == me then FirstRefusal(list[1..], me, contact)
    else
      match contact(me, list[0])
      case None => Some(ContactFailed)
      case Some(accepted) => if accepted then FirstRefusal(list[1..], me, contact) else Some(Forbidden)
  }

  /** The participant whose contact answers first, in the order of the ids, decides which error there is. */
  ghost predicate RefusedBy(people: set<string>, me: string, contact: Contacts, p: string) {
    && p in people && p != me && contact(me, p) != Some(true)
    && forall q | q in people && q != me && Less(q, p) :: contact(me, q) == Some(true)
  }

  lemma {:induction false} RefusalIsFirst(list: seq<string>, me: string, contact: Contacts) returns (k: nat)
    requires FirstRefusal(list, me, contact).Some?
    ensures k < |list| && list[k] != me && contact(me, list[k]) != Some(true)
    ensures FirstRefusal(list, me, contact).value == if contact(me, list[k]).None? then ContactFailed else Forbidden
    ensures forall i | 0 <= i < k :: list[i] == me || contact(me, list[i]) == Some(true)
  {
    if list[0] == me || contact(me, list[0]) == Some(true) {
      k := RefusalIsFirst(list[1..], me, contact);
      k := k + 1;
      assert forall i | 0 < i < k :: list[i] == list[1..][i - 1];
    } else {
      k := 0;
    }
  }

  lemma RefusedInOrder(list: seq<string>, people: set<string>, me: string, contact: Contacts) returns (p: string)
    requires Canonical(list, people) && FirstRefusal(list, me, contact).Some?
    ensures RefusedBy(people, me, contact, p)
    ensures FirstRefusal(list, me, contact).value == if contact(me, p).None? then ContactFailed else Forbidden
  {
    var k := RefusalIsFirst(list, me, contact);
    p := list[k];
    assert p in Elements(list);
    forall q | q in people && q != me && Less(q, p) ensures contact(me, q) == Some(true) {
      assert q in Elements(list);
      var i :| 0 <= i < |list| && list[i] == q;
      LessTotal(q, p);
    }
  }

  /** Only one participant can be the first to refuse. */
  lemma OneRefuses(people: set<string>, me: string, contact: Contacts, p: string, q: string)
    requires RefusedBy(people, me, contact, p) && RefusedBy(people, me, contact, q)
    ensures p == q
  {
    LessTotal(p, q);
  }

  method CreateDirect(actor: string, ids: seq<string>, contact: Contacts) returns (r: Result<Direct, Error>)
    requires CastsToUUID(contact)
    ensures var people, me := Participants(actor, ids), TrimSpace(actor);
            && (r == Err(ValidationError) <==> |people| < 2)
            && (r.Ok? <==> |people| >= 2 && forall p :: p in people && p != me ==> contact(me, p) == Some(true))
            && (r == Err(Forbidden) <==> |people| >= 2 && exists p :: RefusedBy(people, me, contact, p) && contact(me, p) == Some(false))
            && (r == Err(ContactFailed) <==> |people| >= 2 && exists p :: RefusedBy(people, me, contact, p) && contact(me, p) == None)
            && (r.Ok? ==> Canonical(r.value.members, people) && r.value.key == Join(r.value.members, ":")
                          && (r.value.kind == OneToOne <==> |people| == 2) && people != {} && ColonFree(people))
  {
    hide TrimSpace, Named, Increasing;
    var list := NormalizeParticipants(actor, ids);
    ghost var people := Participants(actor, ids);
    CanonicalSize(list, people);
    if |list| < 2 {
      return Err(ValidationError);
    }
    var me := TrimSpace(actor);
    forall other | Canonical(other, people) ensures other == list { IncreasingUnique(other, list); }
    assert list[0..] == list;
    for k := 0 to |list|
      invariant forall i | 0 <= i < k :: list[i] == me || contact(me, list[i]) == Some(true)
      invariant FirstRefusal(list[k..], me, contact) == FirstRefusal(list, me, contact)
    {
      assert list[k..][1..] == list[k + 1..];
      NamedIsTheSet(ids + [actor], list[k]);
      assert list[k] in Elements(list);
      if list[k] != me {
        var accepted := contact(me, list[k]);
        if accepted != Some(true) { Refuses(list, people, me, contact, accepted); }
        if accepted.None? {
          return Err(ContactFailed);
        }
        if !accepted.value {
          return Err(Forbidden);
        }
      }
    }
    var kind := Group;
    if |list| == 2 {
      kind := OneToOne;
    }
    forall p | p in people && p != me ensures contact(me, p) == Some(true) {
      assert p in Elements(list);
      var i :| 0 <= i < |list| && list[i] == p;
    }
    AllCast(people, me, contact);
    r := Ok(Direct(Key(list), kind, list));
  }

  lemma Refuses(list: seq<string>, people: set<string>, me: string, contact: Contacts, answer: Option<bool>)
    requires Canonical(list, people) && answer != Some(true)
    requires FirstRefusal(list, me, contact) == Some(if answer.None? then ContactFailed else Forbidden)
    ensures exists p :: RefusedBy(people, me, contact, p) && contact(me, p) == answer
    ensures forall p | RefusedBy(people, me, contact, p) :: contact(me, p) == answer
  {
    var p := RefusedInOrder(list, people, me, contact);
    var found := contact(me, p);
    assert found.Some? ==> found == Some(found.value) && answer == Some(answer.value) && found.value == answer.value;
    assert found == answer;
    forall q | RefusedBy(people, me, contact, q) ensures contact(me, q) == answer { OneRefuses(people, me, contact, p, q); }
  }

  /** Two participants, of whom all but the actor are its contacts, hold no colon, and neither does the actor. */
  lemma AllCast(people: set<string>, me: string, contact: Contacts)
    requires |people| >= 2 && CastsToUUID(contact)
    requires forall p | p in people && p != me :: contact(me, p) == Some(true)
    ensures people != {} && ColonFree(people)
  {
    var x :| x in people;
    if x == me {
      assert |people - {x}| >= 1;
      var y :| y in people - {x};
      assert contact(me, y).Some?;
    } else {
      assert contact(me, x).Some?;
    }
  }

  // ---------------------------------------------------------------- one conversation per set

  /** One successful CreateDirect: the workspace, the canonical members, and the conversation it returned. */
  datatype Opened = Opened(workspace: int, members: seq<string>, conversation: nat)

  datatype Slot = Slot(workspace: int, key: string)

  /** direct_conversations with its unique index, and what was returned so far. */
  datatype Table = Table(rows: map<Slot, nat>, next: nat, returned: seq<Opened>)

  const EMPTY := Table(map[], 0, [])

  /** CreateOrGetDirectConversation. */
  function Open(t: Table, workspace: int, members: seq<string>): Table {
    var slot := Slot(workspace, Key(members));
    if slot in t.rows then t.(returned := t.returned + [Opened(workspace, members, t.rows[slot])])
    else Table(t.rows[slot := t.next], t.next + 1, t.returned + [Opened(workspace, members, t.next)])
  }

  function OpenAll(t: Table, requests: seq<(int, seq<string>)>): Table
    decreases |requests|
  {
    if requests == [] then t else OpenAll(Open(t, requests[0].0, requests[0].1), requests[1..])
  }

  ghost predicate RowOk(t: Table, s: Slot) { s in t.rows ==> t.rows[s] < t.next }
  ghost predicate RowsDiffer(t: Table, s: Slot, u: Slot) { s in t.rows && u in t.rows && t.rows[s] == t.rows[u] ==> s == u }
  ghost predicate OpenedOk(t: Table, i: nat) {
    i < |t.returned| ==>
      var o := t.returned[i];
      Slot(o.workspace, Key(o.members)) in t.rows && t.rows[Slot(o.workspace, Key(o.members))] == o.conversation
  }

  ghost predicate Inv(t: Table) {
    (forall s :: RowOk(t, s)) && (forall s, u :: RowsDiffer(t, s, u)) && (forall i :: OpenedOk(t, i))
  }

  lemma OpenKeepsInv(t: Table, workspace: int, members: seq<string>)
    requires Inv(t)
    ensures Inv(Open(t, workspace, members))
  {
    hide Key;
    var t' := Open(t, workspace, members);
    forall s ensures RowOk(t', s) { assert RowOk(t, s); }
    forall s, u ensures RowsDiffer(t', s, u) { assert RowsDiffer(t, s, u) && RowOk(t, s) && RowOk(t, u); }
    forall i ensures OpenedOk(t', i) { assert OpenedOk(t, i); }
  }

  lemma {:induction false} OpenAllKeepsInv(t: Table, requests: seq<(int, seq<string>)>)
    requires Inv(t)
    ensures Inv(OpenAll(t, requests))
    decreases |requests|
  {
    hide Inv, Open;
    if requests != [] {
      OpenKeepsInv(t, requests[0].0, requests[0].1);
      OpenAllKeepsInv(Open(t, requests[0].0, requests[0].1), requests[1..]);
    }
  }

  lemma {:induction false} OpenAllAnswers(t: Table, requests: seq<(int, seq<string>)>, i: nat)
    requires i < |requests|
    ensures |OpenAll(t, requests).returned| == |t.returned| + |requests| && t.returned <= OpenAll(t, requests).returned
    ensures var o := OpenAll(t, requests).returned[|t.returned| + i]; o.workspace == requests[i].0 && o.members == requests[i].1
    decreases |requests|
  {
    hide Key;
    var next := Open(t, requests[0].0, requests[0].1);
    if |requests| == 1 {
      assert requests[1..] == [];
    } else {
      OpenAllAnswers(next, requests[1..], if i == 0 then 0 else i - 1);
      if i == 0 { assert OpenAll(t, requests).returned[|t.returned|] == next.returned[|t.returned|]; }
    }
  }

  /** Every request is answered, in order, for its workspace and its participants. */
  lemma RequestsAreAnswered(requests: seq<(int, seq<string>)>, i: nat)
    requires i < |requests|
    ensures var r := OpenAll(EMPTY, requests).returned;
            |r| == |requests| && r[i].workspace == requests[i].0 && r[i].members == requests[i].1
  {
    OpenAllAnswers(EMPTY, requests, i);
  }

  /** After any requests, two of them were given the same conversation exactly when they were for the same workspace
      and the same set of participants. */
  lemma OneConversationPerSet(requests: seq<(int, seq<string>)>, i: nat, j: nat, is_: set<string>, js: set<string>)
    requires i < |OpenAll(EMPTY, requests).returned| && j < |OpenAll(EMPTY, requests).returned|
    requires Canonical(OpenAll(EMPTY, requests).returned[i].members, is_) && is_ != {} && ColonFree(is_)
    requires Canonical(OpenAll(EMPTY, requests).returned[j].members, js) && js != {} && ColonFree(js)
    ensures var o, p := OpenAll(EMPTY, requests).returned[i], OpenAll(EMPTY, requests).returned[j];
            o.conversation == p.conversation <==> o.workspace == p.workspace && is_ == js
  {
    hide OpenAll, Key, Canonical;
    OpenAllKeepsInv(EMPTY, requests);
    var t := OpenAll(EMPTY, requests);
    var o, p := t.returned[i], t.returned[j];
    assert OpenedOk(t, i) && OpenedOk(t, j);
    assert RowsDiffer(t, Slot(o.workspace, Key(o.members)), Slot(p.workspace, Key(p.members)));
    KeyIsTheSet(o.members, p.members, is_, js);
  }

  // ---------------------------------------------------------------- spellings of one user

  /** The cast to uuid: several texts can stand for one user, upper and lower case for a start. */
  type Cast = string -> int

  function Users(people: set<string>, cast: Cast): set<int> { set p | p in people :: cast(p) }

  /** No user is spelled in two ways. */
  ghost predicate OneSpelling(texts: set<string>, cast: Cast) { forall p, q | p in texts && q in texts && cast(p) == cast(q) :: p == q }

  /** The texts name another user too. */
  ghost predicate NotAlone(texts: set<string>, cast: Cast, p: string) { exists r :: r in texts && cast(r) != cast(p) }

  /** Any two requests, with ids out of `texts`, in one workspace and for the same users get the same conversation. */
  ghost predicate OnePerUsers(texts: set<string>, cast: Cast) {
    forall requests, i: nat, j: nat, a, b | Requested(requests, i, a, texts) && Requested(requests, j, b, texts) ::
      SameWorkspace(requests, i, j) && Users(a, cast) == Users(b, cast) ==> SameConversation(requests, i, j)
  }

  /** Request i was answered, for two or more participants out of `texts`. */
  ghost predicate Requested(requests: seq<(int, seq<string>)>, i: nat, people: set<string>, texts: set<string>) {
    i < |OpenAll(EMPTY, requests).returned| && Canonical(OpenAll(EMPTY, requests).returned[i].members, people)
    && |people| >= 2 && people <= texts
  }

  ghost predicate SameWorkspace(requests: seq<(int, seq<string>)>, i: nat, j: nat) {
    var r := OpenAll(EMPTY, requests).returned;
    i < |r| && j < |r| && r[i].workspace == r[j].workspace
  }

  ghost predicate SameConversation(requests: seq<(int, seq<string>)>, i: nat, j: nat) {
    var r := OpenAll(EMPTY, requests).returned;
    i < |r| && j < |r| && r[i].conversation == r[j].conversation
  }

  lemma UsersDetermine(a: set<string>, b: set<string>, texts: set<string>, cast: Cast)
    requires OneSpelling(texts, cast) && a <= texts && b <= texts && Users(a, cast) == Users(b, cast)
    ensures a == b
  {
    forall p ensures p in a <==> p in b {
      if p in a {
        assert cast(p) in Users(b, cast);
        var q :| q in b && cast(q) == cast(p);
      }
      if p in b {
        assert cast(p) in Users(a, cast);
        var q :| q in a && cast(q) == cast(p);
      }
    }
  }

  /** Two participants in order. */
  function Pair(p: string, q: string): seq<string> { if Less(p, q) then [p, q] else [q, p] }

  lemma PairIsCanonical(p: string, q: string)
    requires p != q
    ensures Canonical(Pair(p, q), {p, q}) && |{p, q}| == 2
  {
    LessTotal(p, q);
    var l := Pair(p, q);
    assert l[0] in l && l[1] in l;
    assert Elements(l) == {p, q};
  }

  lemma TwoRequests(a: seq<string>, b: seq<string>)
    ensures var r := OpenAll(EMPTY, [(0, a), (0, b)]).returned;
            |r| == 2 && r[0].workspace == 0 && r[0].members == a && r[1].workspace == 0 && r[1].members == b
  {
    var requests: seq<(int, seq<string>)> := [(0, a), (0, b)];
    var last: seq<(int, seq<string>)> := [(0, b)];
    var t := Open(EMPTY, 0, a);
    assert requests[1..] == last && |last[1..]| == 0;
    assert OpenAll(EMPTY, requests) == OpenAll(t, last) == Open(t, 0, b);
  }

  /** The same users get one conversation, among requests with ids out of `texts`, exactly when no user is spelled in two
      ways there (as long as nobody is alone there, and no id holds a colon). */
  lemma SpellingsMatterExactly(texts: set<string>, cast: Cast)
    requires ColonFree(texts) && forall p | p in texts :: NotAlone(texts, cast, p)
    ensures OnePerUsers(texts, cast) <==> OneSpelling(texts, cast)
  {
    hide *;
    if OneSpelling(texts, cast) { OneSpellingSuffices(texts, cast); } else { OneSpellingIsNeeded(texts, cast); }
  }

  lemma SameUsersShare(texts: set<string>, cast: Cast, requests: seq<(int, seq<string>)>, i: nat, j: nat, a: set<string>, b: set<string>)
    requires OneSpelling(texts, cast) && ColonFree(texts) && Requested(requests, i, a, texts) && Requested(requests, j, b, texts)
    requires SameWorkspace(requests, i, j) && Users(a, cast) == Users(b, cast)
    ensures SameConversation(requests, i, j)
  {
    hide OpenAll, Canonical, Users;
    UsersDetermine(a, b, texts, cast);
    OneConversationPerSet(requests, i, j, a, b);
  }

  lemma OneSpellingSuffices(texts: set<string>, cast: Cast)
    requires OneSpelling(texts, cast) && ColonFree(texts)
    ensures OnePerUsers(texts, cast)
  {
    hide OneSpelling, ColonFree, Requested, SameWorkspace, SameConversation, Users;
    forall requests, i: nat, j: nat, a, b | Requested(requests, i, a, texts) && Requested(requests, j, b, texts)
      ensures SameWorkspace(requests, i, j) && Users(a, cast) == Users(b, cast) ==> SameConversation(requests, i, j)
    {
      if SameWorkspace(requests, i, j) && Users(a, cast) == Users(b, cast) { SameUsersShare(texts, cast, requests, i, j, a, b); }
    }
  }

  lemma OneSpellingIsNeeded(texts: set<string>, cast: Cast)
    requires ColonFree(texts) && (forall p | p in texts :: NotAlone(texts, cast, p)) && !OneSpelling(texts, cast)
    ensures !OnePerUsers(texts, cast)
  {
    hide ColonFree, OnePerUsers, NotAlone;
    var p, q :| p in texts && q in texts && cast(p) == cast(q) && p != q;
    var r := SomebodyElse(texts, cast, p);
    TwoSpellings(texts, cast, p, q, r);
  }

  lemma SomebodyElse(texts: set<string>, cast: Cast, p: string) returns (r: string)
    requires NotAlone(texts, cast, p)
    ensures r in texts && cast(r) != cast(p)
  {
    r :| r in texts && cast(r) != cast(p);
  }

  lemma TwoSpellings(texts: set<string>, cast: Cast, p: string, q: string, r: string)
    requires ColonFree(texts) && p in texts && q in texts && r in texts && p != q && cast(p) == cast(q) != cast(r)
    ensures !OnePerUsers(texts, cast)
  {
    hide OpenAll, Canonical, Pair;
    var a, b := Pair(p, r), Pair(q, r);
    var requests := [(0, a), (0, b)];
    PairIsCanonical(p, r);
    PairIsCanonical(q, r);
    TwoRequests(a, b);
    assert {p, r} != {q, r} by { assert p in {p, r} && p !in {q, r}; }
    assert Users({p, r}, cast) == {cast(p), cast(r)} == Users({q, r}, cast);
    OneConversationPerSet(requests, 0, 1, {p, r}, {q, r});
    assert Requested(requests, 0, {p, r}, texts) && Requested(requests, 1, {q, r}, texts);
    assert SameWorkspace(requests, 0, 1) && !SameConversation(requests, 0, 1);
  }
}
