/**
  Walking over the tokens of a parsed text: visiting the items of an array and the members of an
  object, and finding the path from a container to one of the values inside.
 */
module Walking {
  import opened Options
  import opened Utf8
  import opened JsonText
  import opened JsonTree

  /** Where the next value starts. */
  function Next(tokens: seq<Token>, k: nat): (n: nat)
    requires k < |tokens|
  {
    k + if tokens[k].kind == ObjectToken || tokens[k].kind == ArrayToken then tokens[k].value else 1
  }

  lemma NextIsEnd(text: seq<byte>, tokens: seq<Token>, k: nat, v: Json, hi: nat)
    requires IsJson(v) && Encodes(text, tokens, k, v, hi)
    ensures Next(tokens, k) == k + Size(v)
  {
    hide IsCString, EncodesItems, EncodesMembers;
  }

  // ----- items and members -----

  /** A value in a container, with the token it starts at and, in an object, its key. */
  datatype Child = Child(key: Option<seq<byte>>, at: nat, value: Json)

  /** The items of an array whose first one starts at `k`. */
  function ItemChildren(items: Items, k: nat): (cs: seq<Child>)
    decreases items
  {
    [Child(None, k, items.value)] +
    if items.LastItem? then [] else ItemChildren(items.rest, k + Size(items.value))
  }

  /** The members of an object whose first key is at `k`. */
  function MemberChildren(members: Members, k: nat): (cs: seq<Child>)
    decreases members
  {
    [Child(Some(members.key.raw), k + 1, members.value)] +
    if members.LastMember? then [] else MemberChildren(members.rest, k + 1 + Size(members.value))
  }

  /** The values directly in a container at `k`. */
  function Children(v: Json, k: nat): (cs: seq<Child>) {
    match v
    case Array(items) => ItemChildren(items, k + 1)
    case Object(members) => MemberChildren(members, k + 1)
    case _ => []
  }

  /** The tokens at its place encode the child, and the one before them its key. */
  predicate IsChild(text: seq<byte>, tokens: seq<Token>, c: Child, hi: nat) {
    && IsJson(c.value) && Encodes(text, tokens, c.at, c.value, hi)
    && (c.key.Some? ==>
          && 0 < c.at <= |tokens| && IsBody(c.key.value)
          && IsCString(text, tokens[c.at - 1].value, BodyBytes(c.key.value), hi))
  }

  predicate AreChildren(text: seq<byte>, tokens: seq<Token>, cs: seq<Child>, hi: nat) {
    forall i :: 0 <= i < |cs| ==> IsChild(text, tokens, cs[i], hi)
  }

  lemma ChildIsPut(text: seq<byte>, tokens: seq<Token>, c: Child, cs: seq<Child>, hi: nat)
    requires IsChild(text, tokens, c, hi) && AreChildren(text, tokens, cs, hi)
    ensures AreChildren(text, tokens, [c] + cs, hi)
  {
    hide IsChild;
  }

  lemma ItemIsChild(text: seq<byte>, tokens: seq<Token>, c: Child, hi: nat)
    requires c.key.None? && IsJson(c.value) && Encodes(text, tokens, c.at, c.value, hi)
    ensures IsChild(text, tokens, c, hi)
  {
    hide Encodes, IsJson;
  }

  lemma MemberIsChild(text: seq<byte>, tokens: seq<Token>, c: Child, hi: nat)
    requires c.key.Some? && IsJson(c.value) && Encodes(text, tokens, c.at, c.value, hi)
    requires 0 < c.at <= |tokens| && IsBody(c.key.value)
    requires IsCString(text, tokens[c.at - 1].value, BodyBytes(c.key.value), hi)
    ensures IsChild(text, tokens, c, hi)
  {
    hide Encodes, IsJson, IsCString, IsBody, BodyBytes;
  }

  lemma {:induction false} ItemsAreChildren(text: seq<byte>, tokens: seq<Token>, k: nat, items: Items, hi: nat)
    requires AreItems(items) && EncodesItems(text, tokens, k, items, hi)
    ensures AreChildren(text, tokens, ItemChildren(items, k), hi)
    decreases items
  {
    hide Encodes, IsJson, IsChild, Size;
    var c := Child(None, k, items.value);
    ItemIsChild(text, tokens, c, hi);
    if items.MoreItems? {
      ItemsAreChildren(text, tokens, k + Size(items.value), items.rest, hi);
      ChildIsPut(text, tokens, c, ItemChildren(items.rest, k + Size(items.value)), hi);
    } else {
      ChildIsPut(text, tokens, c, [], hi);
    }
  }

  lemma {:induction false} MembersAreChildren(text: seq<byte>, tokens: seq<Token>, k: nat, members: Members, hi: nat)
    requires AreMembers(members) && EncodesMembers(text, tokens, k, members, hi)
    ensures AreChildren(text, tokens, MemberChildren(members, k), hi)
    decreases members
  {
    hide Encodes, IsJson, IsChild, Size, IsCString, IsBody, BodyBytes;
    var c := Child(Some(members.key.raw), k + 1, members.value);
    MemberIsChild(text, tokens, c, hi);
    if members.MoreMembers? {
      MembersAreChildren(text, tokens, k + 1 + Size(members.value), members.rest, hi);
      ChildIsPut(text, tokens, c, MemberChildren(members.rest, k + 1 + Size(members.value)), hi);
    } else {
      ChildIsPut(text, tokens, c, [], hi);
    }
  }

  /** The items that are still ahead, or the end of the array. */
  ghost predicate ItemsAhead(text: seq<byte>, tokens: seq<Token>, p: nat, rest: Option<Items>, hi: nat, end: nat) {
    match rest
    case None => p == end
    case Some(items) => AreItems(items) && EncodesItems(text, tokens, p, items, hi) && p + ItemsSize(items) == end
  }

  ghost function RestOf(items: Items): Option<Items> {
    if items.LastItem? then None else Some(items.rest)
  }

  lemma ItemIsPassed(text: seq<byte>, tokens: seq<Token>, p: nat, items: Items, hi: nat, end: nat)
    requires ItemsAhead(text, tokens, p, Some(items), hi, end)
    ensures p < |tokens| && p < end && Next(tokens, p) == p + Size(items.value)
    ensures IsJson(items.value) && Encodes(text, tokens, p, items.value, hi)
    ensures ItemsAhead(text, tokens, p + Size(items.value), RestOf(items), hi, end) && p + Size(items.value) <= end
  {
    hide Encodes, IsJson;
    NextIsEnd(text, tokens, p, items.value, hi);
    assert p < |tokens| by { ValueIsInside(text, tokens, p, items.value, hi); }
  }

  lemma ValueIsInside(text: seq<byte>, tokens: seq<Token>, k: nat, v: Json, hi: nat)
    requires IsJson(v) && Encodes(text, tokens, k, v, hi)
    ensures k + Size(v) <= |tokens|
  {
  }

  /** Visit the items of an array. They are all visited, in order, and nothing else is. */
  method VisitItems(tokens: seq<Token>, root: nat, ghost text: seq<byte>, ghost v: Json, ghost hi: nat)
    returns (places: seq<nat>)
    requires IsJson(v) && Encodes(text, tokens, root, v, hi) && (v.Array? || v.EmptyArray?)
    ensures var cs := Children(v, root);
            && |places| == |cs|
            && forall i :: 0 <= i < |cs| ==> places[i] == cs[i].at && IsChild(text, tokens, cs[i], hi)
  {
    hide Encodes, IsJson, IsChild, Children, Size, ItemsAhead, ItemChildren, Next;
    ghost var cs, end := Children(v, root), root + Size(v);
    ghost var rest := ItemsBegin(text, tokens, root, v, hi);
    AllAreChildren(text, tokens, root, v, hi);
    var item := root + 1;
    places := [];
    while item != Next(tokens, root)
      invariant ItemsAhead(text, tokens, item, rest, hi, end)
      invariant |places| <= |cs| && forall i :: 0 <= i < |places| ==> places[i] == cs[i].at
      invariant cs[|places|..] == if rest.None? then [] else ItemChildren(rest.value, item)
      decreases end - item
    {
      ItemsGoOn(text, tokens, item, rest, hi, end);
      ItemIsPassed(text, tokens, item, rest.value, hi, end);
      ItemsUnfold(rest.value, item);
      NextChild(cs, |places|);
      places := places + [item];
      rest := RestOf(rest.value);
      item := Next(tokens, item);
    }
    ItemsGoOn(text, tokens, item, rest, hi, end);
  }

  lemma ItemsUnfold(items: Items, k: nat)
    ensures var cs := ItemChildren(items, k); var rest := RestOf(items);
            && cs != [] && cs[0] == Child(None, k, items.value)
            && cs[1..] == if rest.None? then [] else ItemChildren(rest.value, k + Size(items.value))
  {
    hide Size;
  }

  lemma MembersUnfold(members: Members, k: nat)
    ensures var cs := MemberChildren(members, k); var rest := MembersBehind(members);
            && cs != [] && cs[0] == Child(Some(members.key.raw), k + 1, members.value)
            && cs[1..] == if rest.None? then [] else MemberChildren(rest.value, k + 1 + Size(members.value))
  {
    hide Size;
  }

  lemma NextChild(cs: seq<Child>, i: nat)
    requires i <= |cs| && cs[i..] != []
    ensures i < |cs| && cs[i] == cs[i..][0] && cs[i + 1..] == cs[i..][1..]
  {
  }

  lemma AllAreChildren(text: seq<byte>, tokens: seq<Token>, root: nat, v: Json, hi: nat)
    requires IsJson(v) && Encodes(text, tokens, root, v, hi)
    ensures AreChildren(text, tokens, Children(v, root), hi)
  {
    hide IsCString, IsChild;
    if v.Array? {
      ItemsAreChildren(text, tokens, root + 1, v.items, hi);
    } else if v.Object? {
      MembersAreChildren(text, tokens, root + 1, v.members, hi);
    }
  }

  lemma ItemsBegin(text: seq<byte>, tokens: seq<Token>, root: nat, v: Json, hi: nat) returns (rest: Option<Items>)
    requires IsJson(v) && Encodes(text, tokens, root, v, hi) && (v.Array? || v.EmptyArray?)
    ensures rest == if v.Array? then Some(v.items) else None
    ensures root < |tokens| && Next(tokens, root) == root + Size(v)
    ensures ItemsAhead(text, tokens, root + 1, rest, hi, root + Size(v))
    ensures Children(v, root) == if rest.None? then [] else ItemChildren(rest.value, root + 1)
  {
    rest := if v.Array? then Some(v.items) else None;
    NextIsEnd(text, tokens, root, v, hi);
  }

  /** Items are ahead exactly if the end has not been reached. */
  lemma ItemsGoOn(text: seq<byte>, tokens: seq<Token>, p: nat, rest: Option<Items>, hi: nat, end: nat)
    requires ItemsAhead(text, tokens, p, rest, hi, end)
    ensures rest.Some? <==> p != end
  {
    hide EncodesItems, AreItems;
  }

  /** The members that are still ahead of a value at `p`, or the end of the object. */
  ghost predicate MembersAhead(text: seq<byte>, tokens: seq<Token>, p: nat, rest: Option<Members>, hi: nat, end: nat) {
    match rest
    case None => p == end + 1
    case Some(members) =>
      && p > 0 && AreMembers(members) && EncodesMembers(text, tokens, p - 1, members, hi)
      && p - 1 + MembersSize(members) == end
  }

  ghost function MembersBehind(members: Members): Option<Members> {
    if members.LastMember? then None else Some(members.rest)
  }

  lemma MemberIsPassed(text: seq<byte>, tokens: seq<Token>, p: nat, members: Members, hi: nat, end: nat)
    requires MembersAhead(text, tokens, p, Some(members), hi, end)
    ensures p < |tokens| && p < end && Next(tokens, p) == p + Size(members.value)
    ensures IsJson(members.value) && Encodes(text, tokens, p, members.value, hi)
    ensures MembersAhead(text, tokens, p + Size(members.value) + 1, MembersBehind(members), hi, end)
    ensures p + Size(members.value) <= end
  {
    hide Encodes, IsJson, IsCString;
    NextIsEnd(text, tokens, p, members.value, hi);
    assert p < |tokens| by { ValueIsInside(text, tokens, p, members.value, hi); }
  }

  lemma MembersBegin(text: seq<byte>, tokens: seq<Token>, root: nat, v: Json, hi: nat) returns (rest: Option<Members>)
    requires IsJson(v) && Encodes(text, tokens, root, v, hi) && (v.Object? || v.EmptyObject?)
    ensures rest == if v.Object? then Some(v.members) else None
    ensures root < |tokens| && Next(tokens, root) == root + Size(v)
    ensures MembersAhead(text, tokens, root + 2, rest, hi, root + Size(v))
    ensures Children(v, root) == if rest.None? then [] else MemberChildren(rest.value, root + 1)
  {
    rest := if v.Object? then Some(v.members) else None;
    NextIsEnd(text, tokens, root, v, hi);
  }

  /** Members are ahead exactly if the end has not been reached. */
  lemma MembersGoOn(text: seq<byte>, tokens: seq<Token>, p: nat, rest: Option<Members>, hi: nat, end: nat)
    requires MembersAhead(text, tokens, p, rest, hi, end)
    ensures rest.Some? <==> p < end
  {
    hide EncodesMembers, AreMembers;
  }

  /** The text of the child's key is at `key`. */
  predicate IsKeyOf(tokens: seq<Token>, c: Child, key: nat) {
    c.key.Some? && 0 < c.at <= |tokens| && key == tokens[c.at - 1].value
  }

  /** These places and keys are those of the first children. */
  ghost predicate AreVisited(tokens: seq<Token>, cs: seq<Child>, places: seq<nat>, keys: seq<nat>) {
    && |places| == |keys| <= |cs|
    && forall i :: 0 <= i < |places| ==> places[i] == cs[i].at && IsKeyOf(tokens, cs[i], keys[i])
  }

  lemma OneMoreVisited(tokens: seq<Token>, cs: seq<Child>, places: seq<nat>, keys: seq<nat>, value: nat)
    requires AreVisited(tokens, cs, places, keys) && |places| < |cs|
    requires var c := cs[|places|]; c.at == value && c.key.Some? && 0 < value <= |tokens|
    ensures AreVisited(tokens, cs, places + [value], keys + [tokens[value - 1].value])
  {
  }

  /** Visit the members of an object: the places of their values, and where the text of their keys is. */
  method VisitMembers(tokens: seq<Token>, root: nat, ghost text: seq<byte>, ghost v: Json, ghost hi: nat)
    returns (places: seq<nat>, keys: seq<nat>)
    requires IsJson(v) && Encodes(text, tokens, root, v, hi) && (v.Object? || v.EmptyObject?)
    ensures var cs := Children(v, root);
            && |places| == |keys| == |cs|
            && forall i :: 0 <= i < |cs| ==>
                 places[i] == cs[i].at && IsChild(text, tokens, cs[i], hi) && IsKeyOf(tokens, cs[i], keys[i])
  {
    hide Encodes, IsJson, IsChild, Children, Size, MembersAhead, IsKeyOf, MemberChildren, Next, AreVisited;
    ghost var cs, end := Children(v, root), root + Size(v);
    ghost var rest := MembersBegin(text, tokens, root, v, hi);
    AllAreChildren(text, tokens, root, v, hi);
    var value := root + 2;
    places, keys := [], [];
    NoneVisited(tokens, cs);
    while value < Next(tokens, root)
      invariant MembersAhead(text, tokens, value, rest, hi, end) && value > 0
      invariant AreVisited(tokens, cs, places, keys) && |places| == |keys| <= |cs|
      invariant cs[|places|..] == if rest.None? then [] else MemberChildren(rest.value, value - 1)
      decreases end + 1 - value
    {
      MembersGoOn(text, tokens, value, rest, hi, end);
      MemberIsPassed(text, tokens, value, rest.value, hi, end);
      MembersUnfold(rest.value, value - 1);
      NextChild(cs, |places|);
      OneMoreVisited(tokens, cs, places, keys, value);
      places, keys := places + [value], keys + [tokens[value - 1].value];
      rest := MembersBehind(rest.value);
      value := Next(tokens, value) + 1;
    }
    MembersGoOn(text, tokens, value, rest, hi, end);
    AllAreVisited(tokens, cs, places, keys);
  }

  lemma NoneVisited(tokens: seq<Token>, cs: seq<Child>)
    ensures AreVisited(tokens, cs, [], [])
  {
  }

  lemma AllAreVisited(tokens: seq<Token>, cs: seq<Child>, places: seq<nat>, keys: seq<nat>)
    requires AreVisited(tokens, cs, places, keys)
    ensures forall i :: 0 <= i < |places| ==> places[i] == cs[i].at && IsKeyOf(tokens, cs[i], keys[i])
  {
  }

  // ----- paths -----

  /** A step into a container: to the item with a number, or to the value of the key at a place. */
  datatype Step = Index(i: nat) | Named(place: nat)

  function Behind(step: Step, path: Option<seq<Step>>): (r: Option<seq<Step>>) {
    if path.None? then None else Some([step] + path.value)
  }

  /** The way from the value `v` at `k` to token `n`: always into the child around it. */
  function Path(v: Json, k: nat, n: nat): (path: Option<seq<Step>>)
    decreases v
  {
    if n == k then Some([])
    else
      match v
      case Array(items) => ItemPath(items, k + 1, 0, n)
      case Object(members) => MemberPath(members, k + 1, n)
      case _ => None
  }

  function ItemPath(items: Items, k: nat, i: nat, n: nat): (path: Option<seq<Step>>)
    decreases items
  {
    if k <= n < k + Size(items.value) then Behind(Index(i), Path(items.value, k, n))
    else if items.LastItem? then None
    else ItemPath(items.rest, k + Size(items.value), i + 1, n)
  }

  function MemberPath(members: Members, k: nat, n: nat): (path: Option<seq<Step>>)
    decreases members
  {
    if k + 1 <= n < k + 1 + Size(members.value) then Behind(Named(k), Path(members.value, k + 1, n))
    else if members.LastMember? then None
    else MemberPath(members.rest, k + 1 + Size(members.value), n)
  }

  /** Where a path leads from the value `v` at `k`. */
  function Follow(v: Json, k: nat, path: seq<Step>): (n: Option<nat>)
    decreases v
  {
    if path == [] then Some(k)
    else
      match v
      case Array(items) => if path[0].Index? then FollowItem(items, k + 1, path[0].i, path[1..]) else None
      case Object(members) => if path[0].Named? then FollowMember(members, k + 1, path[0].place, path[1..]) else None
      case _ => None
  }

  function FollowItem(items: Items, k: nat, i: nat, path: seq<Step>): (n: Option<nat>)
    decreases items
  {
    if i == 0 then Follow(items.value, k, path)
    else if items.LastItem? then None
    else FollowItem(items.rest, k + Size(items.value), i - 1, path)
  }

  function FollowMember(members: Members, k: nat, place: nat, path: seq<Step>): (n: Option<nat>)
    decreases members
  {
    if place == k then Follow(members.value, k + 1, path)
    else if members.LastMember? then None
    else FollowMember(members.rest, k + 1 + Size(members.value), place, path)
  }

  /** A path stays inside the value it starts at. */
  lemma {:induction false} FollowStays(v: Json, k: nat, path: seq<Step>)
    ensures Follow(v, k, path).Some? ==> k <= Follow(v, k, path).value < k + Size(v)
    decreases v
  {
    if path != [] {
      match v
      case Array(items) => if path[0].Index? { FollowItemStays(items, k + 1, path[0].i, path[1..]); }
      case Object(members) => if path[0].Named? { FollowMemberStays(members, k + 1, path[0].place, path[1..]); }
      case _ =>
    }
  }

  lemma {:induction false} FollowItemStays(items: Items, k: nat, i: nat, path: seq<Step>)
    ensures var n := FollowItem(items, k, i, path);
            n.Some? ==> k <= n.value < k + ItemsSize(items) && (i > 0 ==> n.value >= k + Size(items.value))
    decreases items
  {
    if i == 0 {
      FollowStays(items.value, k, path);
    } else if items.MoreItems? {
      FollowItemStays(items.rest, k + Size(items.value), i - 1, path);
    }
  }

  lemma {:induction false} FollowMemberStays(members: Members, k: nat, place: nat, path: seq<Step>)
    ensures var n := FollowMember(members, k, place, path);
            && (n.Some? ==> k < n.value < k + MembersSize(members) && k <= place)
            && (n.Some? && place != k ==> n.value > k + 1 + Size(members.value) && place >= k + 1 + Size(members.value))
    decreases members
  {
    if place == k {
      FollowStays(members.value, k + 1, path);
    } else if members.MoreMembers? {
      FollowMemberStays(members.rest, k + 1 + Size(members.value), place, path);
    }
  }

  /** The path to a token is the only one that leads there, and is found if there is one. */
  lemma {:induction false} PathLeadsIff(v: Json, k: nat, n: nat, path: seq<Step>)
    ensures Path(v, k, n) == Some(path) <==> Follow(v, k, path) == Some(n)
    decreases v
  {
    if path == [] {
      NoEmptyPath(v, k, n);
    } else {
      FollowStrictly(v, k, path);
      if n != k {
        match v
        case Array(items) => ItemPathLeadsIff(items, k + 1, 0, n, path);
        case Object(members) => MemberPathLeadsIff(members, k + 1, n, path);
        case _ =>
      }
    }
  }

  /** A path of some steps leads further than where it starts. */
  lemma FollowStrictly(v: Json, k: nat, path: seq<Step>)
    requires path != []
    ensures Follow(v, k, path) != Some(k)
  {
    match v
    case Array(items) => if path[0].Index? { FollowItemStays(items, k + 1, path[0].i, path[1..]); }
    case Object(members) => if path[0].Named? { FollowMemberStays(members, k + 1, path[0].place, path[1..]); }
    case _ =>
  }

  lemma {:induction false} NoEmptyPath(v: Json, k: nat, n: nat)
    ensures Path(v, k, n) == Some([]) <==> n == k
  {
    match v
    case Array(items) => NoEmptyItemPath(items, k + 1, 0, n);
    case Object(members) => NoEmptyMemberPath(members, k + 1, n);
    case _ =>
  }

  lemma {:induction false} NoEmptyItemPath(items: Items, k: nat, i: nat, n: nat)
    ensures ItemPath(items, k, i, n) != Some([])
    decreases items
  {
    if items.MoreItems? { NoEmptyItemPath(items.rest, k + Size(items.value), i + 1, n); }
  }

  lemma {:induction false} NoEmptyMemberPath(members: Members, k: nat, n: nat)
    ensures MemberPath(members, k, n) != Some([])
    decreases members
  {
    if members.MoreMembers? { NoEmptyMemberPath(members.rest, k + 1 + Size(members.value), n); }
  }

  lemma BehindIs(step: Step, rest: Option<seq<Step>>, path: seq<Step>)
    requires path != []
    ensures Behind(step, rest) == Some(path) <==> step == path[0] && rest == Some(path[1..])
  {
    assert path == [path[0]] + path[1..];
    if rest.Some? {
      assert ([step] + rest.value)[1..] == rest.value;
    }
  }

  lemma {:induction false} ItemPathLeadsIff(items: Items, k: nat, i: nat, n: nat, path: seq<Step>)
    requires path != []
    ensures ItemPath(items, k, i, n) == Some(path) <==>
            path[0].Index? && path[0].i >= i && FollowItem(items, k, path[0].i - i, path[1..]) == Some(n)
    decreases items
  {
    var rest := path[1..];
    BehindIs(Index(i), Path(items.value, k, n), path);
    PathLeadsIff(items.value, k, n, rest);
    FollowStays(items.value, k, rest);
    if path[0].Index? && path[0].i > i {
      FollowItemStays(items, k, path[0].i - i, rest);
    }
    if items.MoreItems? {
      ItemPathLeadsIff(items.rest, k + Size(items.value), i + 1, n, path);
    }
  }

  lemma {:induction false} MemberPathLeadsIff(members: Members, k: nat, n: nat, path: seq<Step>)
    requires path != []
    ensures MemberPath(members, k, n) == Some(path) <==>
            path[0].Named? && FollowMember(members, k, path[0].place, path[1..]) == Some(n)
    decreases members
  {
    var rest := path[1..];
    BehindIs(Named(k), Path(members.value, k + 1, n), path);
    PathLeadsIff(members.value, k + 1, n, rest);
    FollowStays(members.value, k + 1, rest);
    if path[0].Named? {
      FollowMemberStays(members, k, path[0].place, rest);
    }
    if members.MoreMembers? {
      MemberPathLeadsIff(members.rest, k + 1 + Size(members.value), n, path);
      if path[0].Named? {
        FollowMemberStays(members.rest, k + 1 + Size(members.value), path[0].place, rest);
      }
    }
  }

  // ----- the search for a path -----

  lemma PathUnfolds(v: Json, k: nat, n: nat)
    requires n != k
    ensures v.Array? ==> Path(v, k, n) == ItemPath(v.items, k + 1, 0, n)
    ensures v.Object? ==> Path(v, k, n) == MemberPath(v.members, k + 1, n)
    ensures !v.Array? && !v.Object? ==> Path(v, k, n) == None
  {
    hide ItemPath, MemberPath;
  }

  lemma ItemPathUnfolds(items: Items, k: nat, i: nat, n: nat)
    ensures var rest := RestOf(items);
            ItemPath(items, k, i, n) ==
            if k <= n < k + Size(items.value) then Behind(Index(i), Path(items.value, k, n))
            else if rest.None? then None else ItemPath(rest.value, k + Size(items.value), i + 1, n)
  {
    hide Size, Path, Behind;
  }

  lemma MemberPathUnfolds(members: Members, k: nat, n: nat)
    ensures var rest := MembersBehind(members);
            MemberPath(members, k, n) ==
            if k + 1 <= n < k + 1 + Size(members.value) then Behind(Named(k), Path(members.value, k + 1, n))
            else if rest.None? then None else MemberPath(rest.value, k + 1 + Size(members.value), n)
  {
    hide Size, Path, Behind;
  }

  /** Find the item of an array that has token `n` inside. */
  method FindItem(tokens: seq<Token>, root: nat, n: nat, ghost text: seq<byte>, ghost v: Json, ghost hi: nat)
    returns (found: bool, index: nat, next: nat, ghost child: Json)
    requires IsJson(v) && Encodes(text, tokens, root, v, hi) && (v.Array? || v.EmptyArray?) && n != root
    ensures if found then
              && IsJson(child) && Encodes(text, tokens, next, child, hi) && Size(child) < Size(v)
              && Path(v, root, n) == Behind(Index(index), Path(child, next, n))
            else Path(v, root, n) == None
  {
    hide Encodes, IsJson, Size, ItemsAhead, Path, ItemPath, Next;
    ghost var goal, end := Path(v, root, n), root + Size(v);
    ghost var rest := ItemsBegin(text, tokens, root, v, hi);
    PathUnfolds(v, root, n);
    found, index, next, child := false, 0, root + 1, v;
    while next != Next(tokens, root)
      invariant ItemsAhead(text, tokens, next, rest, hi, end) && root < next
      invariant goal == if rest.None? then None else ItemPath(rest.value, next, index, n)
      decreases end - next
    {
      ItemsGoOn(text, tokens, next, rest, hi, end);
      ItemIsPassed(text, tokens, next, rest.value, hi, end);
      ItemPathUnfolds(rest.value, next, index, n);
      if next <= n && Next(tokens, next) > n {
        found, child := true, rest.value.value;
        return;
      }
      rest := RestOf(rest.value);
      next := Next(tokens, next);
      index := index + 1;
    }
    ItemsGoOn(text, tokens, next, rest, hi, end);
  }

  /** Find the member of an object that has token `n` in its value. */
  method FindMember(tokens: seq<Token>, root: nat, n: nat, ghost text: seq<byte>, ghost v: Json, ghost hi: nat)
    returns (found: bool, next: nat, ghost child: Json)
    requires IsJson(v) && Encodes(text, tokens, root, v, hi) && (v.Object? || v.EmptyObject?) && n != root
    ensures if found then
              && IsJson(child) && next > 0 && Encodes(text, tokens, next, child, hi) && Size(child) < Size(v)
              && Path(v, root, n) == Behind(Named(next - 1), Path(child, next, n))
            else Path(v, root, n) == None
  {
    hide Encodes, IsJson, Size, MembersAhead, Path, MemberPath, Next;
    ghost var goal, end := Path(v, root, n), root + Size(v);
    ghost var rest := MembersBegin(text, tokens, root, v, hi);
    PathUnfolds(v, root, n);
    found, next, child := false, root + 2, v;
    while next < Next(tokens, root)
      invariant MembersAhead(text, tokens, next, rest, hi, end) && root < next
      invariant goal == if rest.None? then None else MemberPath(rest.value, next - 1, n)
      decreases end + 1 - next
    {
      MembersGoOn(text, tokens, next, rest, hi, end);
      MemberIsPassed(text, tokens, next, rest.value, hi, end);
      MemberPathUnfolds(rest.value, next - 1, n);
      if next <= n && Next(tokens, next) > n {
        found, child := true, rest.value.value;
        return;
      }
      rest := MembersBehind(rest.value);
      next := Next(tokens, next) + 1;
    }
    MembersGoOn(text, tokens, next, rest, hi, end);
  }

  ghost function Onwards(path: seq<Step>, rest: Option<seq<Step>>): (whole: Option<seq<Step>>)
    ensures path == [] ==> whole == rest
    ensures rest == Some([]) ==> whole == Some(path)
  {
    if rest.None? then None
    else
      assert path + [] == path && [] + rest.value == rest.value;
      Some(path + rest.value)
  }

  lemma OnwardsBehind(path: seq<Step>, step: Step, rest: Option<seq<Step>>)
    ensures Onwards(path, Behind(step, rest)) == Onwards(path + [step], rest)
  {
    if rest.Some? {
      assert path + ([step] + rest.value) == path + [step] + rest.value;
    }
  }

  /** The path that an error message shows: from the value at `root` to the one at token `n`. There is
      one for every value inside, and none for anything else. */
  method FindPath(tokens: seq<Token>, root: nat, n: nat, ghost text: seq<byte>, ghost v: Json, ghost hi: nat)
    returns (path: Option<seq<Step>>)
    requires IsJson(v) && Encodes(text, tokens, root, v, hi)
    ensures path == Path(v, root, n)
    ensures path.Some? ==> Follow(v, root, path.value) == Some(n)
    ensures path.None? ==> forall p :: Follow(v, root, p) != Some(n)
  {
    var at, steps := root, [];
    ghost var w := v;
    var lost := false;
    hide Follow;
    while at != n && !lost
      invariant IsJson(w) && Encodes(text, tokens, at, w, hi)
      invariant Path(v, root, n) == if lost then None else Onwards(steps, Path(w, at, n))
      decreases Size(w), if lost then 0 else 1
    {
      KindTells(text, tokens, at, w, hi);
      hide Encodes, IsJson, Path, Size, Onwards, Behind;
      if tokens[at].kind == ObjectToken {
        var found, next;
        ghost var child;
        found, next, child := FindMember(tokens, at, n, text, w, hi);
        if found {
          OnwardsBehind(steps, Named(next - 1), Path(child, next, n));
          steps, at, w := steps + [Named(next - 1)], next, child;
        } else {
          lost := true;
        }
      } else if tokens[at].kind == ArrayToken {
        var found, index, next;
        ghost var child;
        found, index, next, child := FindItem(tokens, at, n, text, w, hi);
        if found {
          OnwardsBehind(steps, Index(index), Path(child, next, n));
          steps, at, w := steps + [Index(index)], next, child;
        } else {
          lost := true;
        }
      } else {
        lost := true;
      }
    }
    path := if lost then None else Some(steps);
    forall p ensures Path(v, root, n) == Some(p) <==> Follow(v, root, p) == Some(n) {
      PathLeadsIff(v, root, n, p);
    }
  }

  lemma KindTells(text: seq<byte>, tokens: seq<Token>, k: nat, v: Json, hi: nat)
    requires IsJson(v) && Encodes(text, tokens, k, v, hi)
    ensures k < |tokens|
    ensures tokens[k].kind == ObjectToken <==> v.Object? || v.EmptyObject?
    ensures tokens[k].kind == ArrayToken <==> v.Array? || v.EmptyArray?
    ensures !(v.Object? || v.EmptyObject? || v.Array? || v.EmptyArray?) ==> forall n :: n != k ==> Path(v, k, n) == None
  {
    hide IsCString, EncodesItems, EncodesMembers;
  }
}
