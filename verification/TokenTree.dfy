/** Flattening the nested token files into dotted paths, with the type each token has or inherits. */
module TokenTree {
  import opened Wrappers
  import opened TokenRefs

  /** A parsed object: what is neither a token nor a group of entries counts as Plain. */
  datatype Node = Plain | Token(value: Value, own: Option<string>) | Group(own: Option<string>, entries: seq<Entry>)

  datatype Entry = Entry(key: string, node: Node)

  predicate Skipped(key: string) {
    key != "" && key[0] == '$'
  }

  function Dotted(prefix: string, key: string): string {
    if prefix == "" then key else prefix + "." + key
  }

  function Nearest(own: Option<string>, inherited: Option<string>): Option<string> {
    if own.Some? then own else inherited
  }

  // ----- the flattening -----

  function Tokens(entries: seq<Entry>, prefix: string): map<string, Value>
    decreases entries
  {
    if entries == [] then map[] else
    Tokens(entries[..|entries| - 1], prefix) + TokensOf(entries[|entries| - 1], prefix)
  }

  function TokensOf(e: Entry, prefix: string): map<string, Value>
    decreases e
  {
    if Skipped(e.key) then map[] else
    match e.node
    case Plain => map[]
    case Token(value, _) => map[Dotted(prefix, e.key) := value]
    case Group(_, entries) => Tokens(entries, Dotted(prefix, e.key))
  }

  function Types(entries: seq<Entry>, prefix: string, inherited: Option<string>): map<string, string>
    decreases entries
  {
    if entries == [] then map[] else
    Types(entries[..|entries| - 1], prefix, inherited) + TypesOf(entries[|entries| - 1], prefix, inherited)
  }

  function TypesOf(e: Entry, prefix: string, inherited: Option<string>): map<string, string>
    decreases e
  {
    if Skipped(e.key) then map[] else
    match e.node
    case Plain => map[]
    case Token(_, own) =>
      var t := Nearest(own, inherited);
      if t.Some? then map[Dotted(prefix, e.key) := t.value] else map[]
    case Group(own, entries) => Types(entries, Dotted(prefix, e.key), Nearest(own, inherited))
  }

  method CollectTokens(entries: seq<Entry>, prefix: string) returns (result: map<string, Value>)
    ensures result == Tokens(entries, prefix)
    decreases entries
  {
    result := map[];
    for i := 0 to |entries|
      invariant result == Tokens(entries[..i], prefix)
    {
      assert entries[..i + 1][..i] == entries[..i];
      var Entry(key, node) := entries[i];
      if Skipped(key) {
        continue;
      }
      var path := Dotted(prefix, key);
      match node {
        case Plain =>
        case Token(value, _) =>
          result := result[path := value];
        case Group(_, inner) =>
          var below := CollectTokens(inner, path);
          result := result + below;
      }
    }
    assert entries[..|entries|] == entries;
  }

  method CollectTypes(entries: seq<Entry>, prefix: string, inherited: Option<string>)
    returns (result: map<string, string>)
    ensures result == Types(entries, prefix, inherited)
    decreases entries
  {
    result := map[];
    for i := 0 to |entries|
      invariant result == Types(entries[..i], prefix, inherited)
    {
      assert entries[..i + 1][..i] == entries[..i];
      var Entry(key, node) := entries[i];
      if Skipped(key) {
        continue;
      }
      var path := Dotted(prefix, key);
      match node {
        case Plain =>
        case Token(_, own) =>
          var t := Nearest(own, inherited);
          if t.Some? {
            result := result[path := t.value];
          }
        case Group(own, inner) =>
          var below := CollectTypes(inner, path, Nearest(own, inherited));
          result := result + below;
      }
    }
    assert entries[..|entries|] == entries;
  }

  // ----- addresses -----

  /** The keys from the root to a token. */
  type Address = seq<string>

  predicate CleanName(key: string) {
    key != "" && '.' !in key
  }

  /** Keys of one object differ, and those that are read are not empty and hold no dot. */
  ghost predicate Clean(entries: seq<Entry>)
    decreases entries
  {
    && (forall i, j | 0 <= i < j < |entries| :: entries[i].key != entries[j].key)
    && (forall e | e in entries :: CleanEntry(e))
  }

  ghost predicate CleanEntry(e: Entry)
    decreases e
  {
    Skipped(e.key) || (CleanName(e.key) && (e.node.Group? ==> Clean(e.node.entries)))
  }

  predicate CleanAddress(address: Address) {
    address != [] && forall key | key in address :: CleanName(key)
  }

  /** The dotted path of an address below a prefix. */
  function PathOf(prefix: string, address: Address): string
    decreases |address|
  {
    if address == [] then prefix else PathOf(Dotted(prefix, address[0]), address[1..])
  }

  datatype Found = Found(value: Value, kind: Option<string>)

  /** What stands at an address, with its own type or that of the nearest group that has one. */
  ghost predicate At(entries: seq<Entry>, address: Address, inherited: Option<string>, found: Found)
    decreases entries
  {
    exists e :: e in entries && AtEntry(e, address, inherited, found)
  }

  ghost predicate AtEntry(e: Entry, address: Address, inherited: Option<string>, found: Found)
    decreases e
  {
    && address != [] && e.key == address[0] && !Skipped(e.key)
    && match e.node
       case Plain => false
       case Token(value, own) => |address| == 1 && found == Found(value, Nearest(own, inherited))
       case Group(own, entries) => |address| > 1 && At(entries, address[1..], Nearest(own, inherited), found)
  }

  /** A way from the root down to a token: the own types met on it, outermost first, and the token's value. */
  ghost predicate Walk(entries: seq<Entry>, address: Address, owns: seq<Option<string>>, value: Value)
    decreases address
  {
    && address != [] && |owns| == |address|
    && exists e :: e in entries && e.key == address[0] && WalkFrom(e.node, address, owns, value)
  }

  ghost predicate WalkFrom(node: Node, address: Address, owns: seq<Option<string>>, value: Value)
    requires address != [] && |owns| == |address|
    decreases address, 0
  {
    match node
    case Plain => false
    case Token(v, own) => |address| == 1 && owns[0] == own && value == v
    case Group(own, below) => |address| > 1 && owns[0] == own && Walk(below, address[1..], owns[1..], value)
  }

  /** The type given last on the way; the one inherited where none was given. */
  ghost function Innermost(owns: seq<Option<string>>, inherited: Option<string>): Option<string> {
    if owns == [] then inherited
    else if owns[|owns| - 1].Some? then owns[|owns| - 1]
    else Innermost(owns[..|owns| - 1], inherited)
  }

  lemma {:induction false} InnermostFirst(owns: seq<Option<string>>, inherited: Option<string>)
    requires owns != []
    ensures Innermost(owns, inherited) == Innermost(owns[1..], if owns[0].Some? then owns[0] else inherited)
  {
    if |owns| > 1 && owns[|owns| - 1].None? {
      InnermostFirst(owns[..|owns| - 1], inherited);
      assert owns[..|owns| - 1][1..] == owns[1..][..|owns| - 2];
    }
  }

  ghost predicate NoDollar(address: Address) {
    forall i | 0 <= i < |address| :: !("$" <= address[i])
  }

  /** What stands at an address, from the way down to it: no key on it starts with a dollar sign, and the type is the
      innermost one given. */
  lemma {:induction false} AtIsWalk(entries: seq<Entry>, address: Address, inherited: Option<string>, found: Found)
    ensures At(entries, address, inherited, found) <==>
      NoDollar(address) && exists owns ::
        Walk(entries, address, owns, found.value) && found.kind == Innermost(owns, inherited)
    decreases address
  {
    if At(entries, address, inherited, found) {
      var owns := WalkTo(entries, address, inherited, found);
    }
    forall owns | NoDollar(address) && Walk(entries, address, owns, found.value)
                  && found.kind == Innermost(owns, inherited)
      ensures At(entries, address, inherited, found)
    {
      WalkArrives(entries, address, owns, inherited, found);
    }
  }

  lemma {:induction false} WalkTo(entries: seq<Entry>, address: Address, inherited: Option<string>, found: Found)
    returns (owns: seq<Option<string>>)
    requires At(entries, address, inherited, found)
    ensures NoDollar(address) && Walk(entries, address, owns, found.value) && found.kind == Innermost(owns, inherited)
    decreases address
  {
    var e :| e in entries && AtEntry(e, address, inherited, found);
    match e.node
    case Token(_, own) =>
      owns := [own];
      assert owns[..0] == [];
      assert WalkFrom(e.node, address, owns, found.value);
    case Group(own, below) =>
      var rest := WalkTo(below, address[1..], Nearest(own, inherited), found);
      owns := [own] + rest;
      assert owns[1..] == rest;
      assert forall i | 1 <= i < |address| :: address[i] == address[1..][i - 1];
      InnermostFirst(owns, inherited);
      assert WalkFrom(e.node, address, owns, found.value);
  }

  lemma {:induction false} WalkArrives(entries: seq<Entry>, address: Address, owns: seq<Option<string>>,
                                       inherited: Option<string>, found: Found)
    requires NoDollar(address) && Walk(entries, address, owns, found.value)
    requires found.kind == Innermost(owns, inherited)
    ensures At(entries, address, inherited, found)
    decreases address
  {
    var e :| e in entries && e.key == address[0] && WalkFrom(e.node, address, owns, found.value);
    InnermostFirst(owns, inherited);
    match e.node
    case Token(_, own) =>
      assert owns[1..] == [];
      assert AtEntry(e, address, inherited, found);
    case Group(own, below) =>
      WalkArrives(below, address[1..], owns[1..], Nearest(own, inherited), found);
      assert AtEntry(e, address, inherited, found);
  }

  // ----- paths name addresses -----

  /** The names, each behind a dot. */
  function Tail(names: seq<string>): (t: string)
    ensures t == "" || t[0] == '.'
  {
    if names == [] then "" else "." + names[0] + Tail(names[1..])
  }

  ghost predicate CleanNames(names: seq<string>) {
    forall name | name in names :: CleanName(name)
  }

  lemma {:induction false} PathTail(prefix: string, names: seq<string>)
    requires prefix != ""
    ensures PathOf(prefix, names) == prefix + Tail(names)
    decreases |names|
  {
    if names != [] {
      PathTail(prefix + "." + names[0], names[1..]);
      assert prefix + "." + names[0] + Tail(names[1..]) == prefix + ("." + names[0] + Tail(names[1..]));
    }
  }

  /** A path is the keys from the root on, with a dot between any two; leading empty keys leave no trace. */
  lemma {:induction false} PathReads(address: Address)
    requires address != []
    ensures address[0] != "" ==> PathOf("", address) == address[0] + Tail(address[1..])
    ensures address[0] == "" ==> PathOf("", address) == PathOf("", address[1..])
  {
    if address[0] != "" {
      PathTail(address[0], address[1..]);
    }
  }

  function FirstDot(s: string): (n: nat)
    ensures n <= |s| && (n < |s| ==> s[n] == '.')
    ensures forall i | 0 <= i < n :: s[i] != '.'
  {
    if s == "" || s[0] == '.' then 0 else 1 + FirstDot(s[1..])
  }

  lemma NameEndsAtDot(x: string, u: string)
    requires '.' !in x && (u == "" || u[0] == '.')
    ensures FirstDot(x + u) == |x| && (x + u)[..|x|] == x && (x + u)[|x|..] == u
  {
    var whole := x + u;
    forall i | 0 <= i < |x| ensures whole[i] != '.' {
      assert whole[i] == x[i] && x[i] in x;
    }
    assert u != "" ==> whole[|x|] == '.';
  }

  lemma SameUpToDot(x: string, u: string, y: string, v: string)
    requires x + u == y + v && '.' !in x && '.' !in y
    requires (u == "" || u[0] == '.') && (v == "" || v[0] == '.')
    ensures x == y && u == v
  {
    NameEndsAtDot(x, u);
    NameEndsAtDot(y, v);
  }

  lemma BehindDot(x: string, u: string, y: string, v: string)
    requires "." + x + u == "." + y + v
    ensures x + u == y + v
  {
    assert ("." + x + u)[1..] == x + u;
    assert ("." + y + v)[1..] == y + v;
  }

  /** Names without dots can be read back from a path. */
  lemma {:induction false} TailsDiffer(a: seq<string>, b: seq<string>)
    requires CleanNames(a) && CleanNames(b) && Tail(a) == Tail(b)
    ensures a == b
    decreases |a|
  {
    if a != [] && b != [] {
      assert CleanName(a[0]) && CleanName(b[0]);
      var u, v := Tail(a[1..]), Tail(b[1..]);
      hide Tail;
      BehindDot(a[0], u, b[0], v);
      SameUpToDot(a[0], u, b[0], v);
      TailsDiffer(a[1..], b[1..]);
      assert a == [a[0]] + a[1..] && b == [b[0]] + b[1..];
    }
  }

  lemma PathsDiffer(prefix: string, a: Address, b: Address)
    requires CleanAddress(a) && CleanAddress(b) && PathOf(prefix, a) == PathOf(prefix, b)
    ensures a == b
  {
    assert CleanName(a[0]) && CleanName(b[0]);
    if prefix == "" {
      assert PathOf("", a) == PathOf(a[0], a[1..]) && PathOf("", b) == PathOf(b[0], b[1..]);
      hide Tail, PathOf;
      PathTail(a[0], a[1..]);
      PathTail(b[0], b[1..]);
      SameUpToDot(a[0], Tail(a[1..]), b[0], Tail(b[1..]));
      TailsDiffer(a[1..], b[1..]);
      assert a == [a[0]] + a[1..] && b == [b[0]] + b[1..];
    } else {
      hide Tail, PathOf;
      PathTail(prefix, a);
      PathTail(prefix, b);
      assert (prefix + Tail(a))[|prefix|..] == Tail(a);
      assert (prefix + Tail(b))[|prefix|..] == Tail(b);
      TailsDiffer(a, b);
    }
  }

  // ----- the flattening finds what stands at each address -----

  lemma {:induction false} TypesHaveTokens(entries: seq<Entry>, prefix: string, inherited: Option<string>)
    ensures Types(entries, prefix, inherited).Keys <= Tokens(entries, prefix).Keys
    decreases entries
  {
    if entries != [] {
      TypesHaveTokens(entries[..|entries| - 1], prefix, inherited);
      TypesOfHaveTokens(entries[|entries| - 1], prefix, inherited);
    }
  }

  lemma {:induction false} TypesOfHaveTokens(e: Entry, prefix: string, inherited: Option<string>)
    ensures TypesOf(e, prefix, inherited).Keys <= TokensOf(e, prefix).Keys
    decreases e
  {
    if e.node.Group? {
      TypesHaveTokens(e.node.entries, Dotted(prefix, e.key), Nearest(e.node.own, inherited));
    }
  }

  /** What the two maps hold under a path. */
  ghost predicate Holds(tokens: map<string, Value>, types: map<string, string>, path: string, found: Found) {
    && path in tokens && tokens[path] == found.value
    && found.kind == if path in types then Some(types[path]) else None
  }

  /** Where a flattened value comes from. */
  lemma {:induction false} ValueOrigin(entries: seq<Entry>, prefix: string, inherited: Option<string>, path: string)
    returns (address: Address, found: Found)
    requires path in Tokens(entries, prefix)
    ensures path == PathOf(prefix, address) && At(entries, address, inherited, found)
    ensures found.value == Tokens(entries, prefix)[path]
    decreases entries
  {
    var before, last := entries[..|entries| - 1], entries[|entries| - 1];
    assert last in entries && entries == before + [last];
    if path !in TokensOf(last, prefix) {
      address, found := ValueOrigin(before, prefix, inherited, path);
    } else {
      match last.node
      case Token(value, own) =>
        address, found := [last.key], Found(value, Nearest(own, inherited));
        assert AtEntry(last, address, inherited, found);
      case Group(own, inner) =>
        var below, f := ValueOrigin(inner, Dotted(prefix, last.key), Nearest(own, inherited), path);
        address, found := [last.key] + below, f;
        assert address[1..] == below && AtEntry(last, address, inherited, found);
    }
  }

  /** Where a flattened type comes from. */
  lemma {:induction false} TypeOrigin(entries: seq<Entry>, prefix: string, inherited: Option<string>, path: string)
    returns (address: Address, found: Found)
    requires path in Types(entries, prefix, inherited)
    ensures path == PathOf(prefix, address) && At(entries, address, inherited, found)
    ensures found.kind == Some(Types(entries, prefix, inherited)[path])
    decreases entries
  {
    var before, last := entries[..|entries| - 1], entries[|entries| - 1];
    assert last in entries && entries == before + [last];
    if path !in TypesOf(last, prefix, inherited) {
      address, found := TypeOrigin(before, prefix, inherited, path);
    } else {
      match last.node
      case Token(value, own) =>
        address, found := [last.key], Found(value, Nearest(own, inherited));
        assert AtEntry(last, address, inherited, found);
      case Group(own, inner) =>
        var below, f := TypeOrigin(inner, Dotted(prefix, last.key), Nearest(own, inherited), path);
        address, found := [last.key] + below, f;
        assert address[1..] == below && AtEntry(last, address, inherited, found);
    }
  }

  lemma {:induction false} AddressedIsFlattened(entries: seq<Entry>, prefix: string, address: Address,
                                                inherited: Option<string>, found: Found)
    requires At(entries, address, inherited, found)
    ensures PathOf(prefix, address) in Tokens(entries, prefix)
    ensures found.kind.Some? ==> PathOf(prefix, address) in Types(entries, prefix, inherited)
    decreases entries
  {
    var before, last := entries[..|entries| - 1], entries[|entries| - 1];
    assert last in entries && entries == before + [last];
    if AtEntry(last, address, inherited, found) {
      if last.node.Group? {
        var inner := last.node.entries;
        AddressedIsFlattened(inner, Dotted(prefix, last.key), address[1..], Nearest(last.node.own, inherited), found);
      }
    } else {
      AddressedIsFlattened(before, prefix, address, inherited, found);
    }
  }

  /** The two flat maps hold, under the path of every address, what stands there. */
  ghost predicate IsLookup(entries: seq<Entry>) {
    forall a, f | At(entries, a, None, f) :: Holds(Tokens(entries, ""), Types(entries, "", None), PathOf("", a), f)
  }

  /** Addresses that share a path hold the same value under the same type. */
  ghost predicate Unambiguous(entries: seq<Entry>) {
    forall a, f, b, g | At(entries, a, None, f) && At(entries, b, None, g) && PathOf("", a) == PathOf("", b) :: f == g
  }

  /** For every tree, flattening is the lookup by address exactly when paths are unambiguous. */
  lemma LookupIffUnambiguous(entries: seq<Entry>)
    ensures IsLookup(entries) <==> Unambiguous(entries)
  {
    hide At, Tokens, Types, PathOf;
    if Unambiguous(entries) {
      forall a, f | At(entries, a, None, f)
        ensures Holds(Tokens(entries, ""), Types(entries, "", None), PathOf("", a), f)
      {
        AddressedIsFlattened(entries, "", a, None, f);
        var _, _ := ValueOrigin(entries, "", None, PathOf("", a));
        if PathOf("", a) in Types(entries, "", None) {
          var _, _ := TypeOrigin(entries, "", None, PathOf("", a));
        }
      }
    }
  }

  // ----- which of several addresses with one path -----

  datatype Listed = Listed(address: Address, found: Found)

  ghost function Below(key: string, listing: seq<Listed>): seq<Listed> {
    seq(|listing|, i requires 0 <= i < |listing| => Listed([key] + listing[i].address, listing[i].found))
  }

  /** All tokens with their addresses, in the order of the files. */
  ghost function Listing(entries: seq<Entry>, inherited: Option<string>): seq<Listed>
    decreases entries
  {
    if entries == [] then [] else
    Listing(entries[..|entries| - 1], inherited) + ListingOf(entries[|entries| - 1], inherited)
  }

  ghost function ListingOf(e: Entry, inherited: Option<string>): seq<Listed>
    decreases e
  {
    if Skipped(e.key) then [] else
    match e.node
    case Plain => []
    case Token(value, own) => [Listed([e.key], Found(value, Nearest(own, inherited)))]
    case Group(own, entries) => Below(e.key, Listing(entries, Nearest(own, inherited)))
  }

  /** The listing holds exactly what stands at the addresses of the tree. */
  lemma {:induction false} ListedIffAt(entries: seq<Entry>, inherited: Option<string>, address: Address, found: Found)
    ensures Listed(address, found) in Listing(entries, inherited) <==> At(entries, address, inherited, found)
    decreases entries
  {
    if entries != [] {
      var front, e := entries[..|entries| - 1], entries[|entries| - 1];
      ListedIffAt(front, inherited, address, found);
      ListedIffAtEntry(e, inherited, address, found);
      assert forall other :: other in entries <==> other in front || other == e;
      hide AtEntry, ListingOf;
    }
  }

  lemma {:induction false} ListedIffAtEntry(e: Entry, inherited: Option<string>, address: Address, found: Found)
    ensures Listed(address, found) in ListingOf(e, inherited) <==> AtEntry(e, address, inherited, found)
    decreases e
  {
    if e.node.Group? && !Skipped(e.key) {
      var inner := Listing(e.node.entries, Nearest(e.node.own, inherited));
      InBelow(e.key, inner, address, found);
      if address != [] {
        ListedIffAt(e.node.entries, Nearest(e.node.own, inherited), address[1..], found);
        AddressesAreNonEmpty(e.node.entries, Nearest(e.node.own, inherited), found);
      }
    } else if e.node.Token? {
      assert address != [] && |address| == 1 ==> address == [address[0]];
    }
  }

  lemma AddressesAreNonEmpty(entries: seq<Entry>, inherited: Option<string>, found: Found)
    ensures !At(entries, [], inherited, found)
  {
  }

  lemma InBelow(key: string, listing: seq<Listed>, address: Address, found: Found)
    ensures Listed(address, found) in Below(key, listing) <==>
      address != [] && address[0] == key && Listed(address[1..], found) in listing
  {
    var below := Below(key, listing);
    forall i | 0 <= i < |listing| ensures Listed([key] + listing[i].address, listing[i].found) in below {
      assert below[i] in below;
    }
    assert forall i | 0 <= i < |below| :: below[i].address[0] == key && below[i].address[1..] == listing[i].address;
    assert address != [] && address[0] == key ==> address == [key] + address[1..];
  }

  /** Each path with the last of its values. */
  ghost function LastValues(listing: seq<Listed>, prefix: string): map<string, Value> {
    if listing == [] then map[] else
    var Listed(address, found) := listing[|listing| - 1];
    LastValues(listing[..|listing| - 1], prefix)[PathOf(prefix, address) := found.value]
  }

  /** Each path with the last of its types. */
  ghost function LastTypes(listing: seq<Listed>, prefix: string): map<string, string> {
    if listing == [] then map[] else
    var Listed(address, found) := listing[|listing| - 1];
    var earlier := LastTypes(listing[..|listing| - 1], prefix);
    if found.kind.Some? then earlier[PathOf(prefix, address) := found.kind.value] else earlier
  }

  lemma LastNext(listing: seq<Listed>, next: Listed, prefix: string)
    ensures LastValues(listing + [next], prefix) ==
      LastValues(listing, prefix)[PathOf(prefix, next.address) := next.found.value]
    ensures LastTypes(listing + [next], prefix) ==
      if next.found.kind.None? then LastTypes(listing, prefix)
      else LastTypes(listing, prefix)[PathOf(prefix, next.address) := next.found.kind.value]
  {
  }

  lemma {:induction false} LastOfBoth(a: seq<Listed>, b: seq<Listed>, prefix: string)
    ensures LastValues(a + b, prefix) == LastValues(a, prefix) + LastValues(b, prefix)
    ensures LastTypes(a + b, prefix) == LastTypes(a, prefix) + LastTypes(b, prefix)
  {
    if b == [] {
      assert a + b == a;
    } else {
      hide PathOf, LastValues, LastTypes;
      var front, last := b[..|b| - 1], b[|b| - 1];
      LastOfBoth(a, front, prefix);
      assert b == front + [last] && a + b == a + front + [last];
      LastNext(a + front, last, prefix);
      LastNext(front, last, prefix);
      UpdateOfMerge(LastValues(a, prefix), LastValues(front, prefix), PathOf(prefix, last.address), last.found.value);
      if last.found.kind.Some? {
        UpdateOfMerge(LastTypes(a, prefix), LastTypes(front, prefix), PathOf(prefix, last.address),
          last.found.kind.value);
      }
    }
  }

  lemma UpdateOfMerge<K, V>(a: map<K, V>, b: map<K, V>, k: K, v: V)
    ensures (a + b)[k := v] == a + b[k := v]
  {
  }

  lemma {:induction false} LastBelow(key: string, listing: seq<Listed>, prefix: string)
    ensures LastValues(Below(key, listing), prefix) == LastValues(listing, Dotted(prefix, key))
    ensures LastTypes(Below(key, listing), prefix) == LastTypes(listing, Dotted(prefix, key))
  {
    if listing != [] {
      var front, last := listing[..|listing| - 1], listing[|listing| - 1];
      LastBelow(key, front, prefix);
      assert Below(key, listing)[..|listing| - 1] == Below(key, front);
      assert ([key] + last.address)[1..] == last.address;
    }
  }

  /** For every tree, ambiguous or not, the flat maps hold the last value and the last type under each path. */
  lemma {:induction false} LastAddressWins(entries: seq<Entry>, prefix: string, inherited: Option<string>)
    ensures Tokens(entries, prefix) == LastValues(Listing(entries, inherited), prefix)
    ensures Types(entries, prefix, inherited) == LastTypes(Listing(entries, inherited), prefix)
    decreases entries
  {
    if entries != [] {
      var front, e := entries[..|entries| - 1], entries[|entries| - 1];
      LastAddressWins(front, prefix, inherited);
      LastOfEntry(e, prefix, inherited);
      hide LastValues, LastTypes, TokensOf, TypesOf, ListingOf;
      LastOfBoth(Listing(front, inherited), ListingOf(e, inherited), prefix);
    }
  }

  lemma {:induction false} LastOfEntry(e: Entry, prefix: string, inherited: Option<string>)
    ensures TokensOf(e, prefix) == LastValues(ListingOf(e, inherited), prefix)
    ensures TypesOf(e, prefix, inherited) == LastTypes(ListingOf(e, inherited), prefix)
    decreases e
  {
    if e.node.Group? && !Skipped(e.key) {
      var below := Nearest(e.node.own, inherited);
      LastAddressWins(e.node.entries, Dotted(prefix, e.key), below);
      hide LastValues, LastTypes;
      LastBelow(e.key, Listing(e.node.entries, below), prefix);
    } else {
      assert PathOf(prefix, [e.key]) == PathOf(Dotted(prefix, e.key), []) == Dotted(prefix, e.key);
    }
  }

  /** That is: where no later address has a path, its value is the flattened one; and so for typed addresses. */
  lemma WinnerAt(entries: seq<Entry>, i: nat)
    requires i < |Listing(entries, None)|
    ensures var listing := Listing(entries, None);
      var path, found := PathOf("", listing[i].address), listing[i].found;
      && ((forall j | i < j < |listing| :: PathOf("", listing[j].address) != path) ==>
            path in Tokens(entries, "") && Tokens(entries, "")[path] == found.value)
      && (found.kind.Some? &&
          (forall j | i < j < |listing| :: PathOf("", listing[j].address) == path ==> listing[j].found.kind.None?) ==>
            path in Types(entries, "", None) && Types(entries, "", None)[path] == found.kind.value)
  {
    hide PathOf, Tokens, Types, Listing, LastValues, LastTypes;
    var listing := Listing(entries, None);
    LastAddressWins(entries, "", None);
    WinnerIn(listing, i, |listing|);
    assert listing[..|listing|] == listing;
  }

  lemma {:induction false} WinnerIn(listing: seq<Listed>, i: nat, n: nat)
    requires i < n <= |listing|
    ensures var path, found := PathOf("", listing[i].address), listing[i].found;
      && ((forall j | i < j < n :: PathOf("", listing[j].address) != path) ==>
            path in LastValues(listing[..n], "") && LastValues(listing[..n], "")[path] == found.value)
      && (found.kind.Some? &&
          (forall j | i < j < n :: PathOf("", listing[j].address) == path ==> listing[j].found.kind.None?) ==>
            path in LastTypes(listing[..n], "") && LastTypes(listing[..n], "")[path] == found.kind.value)
  {
    hide PathOf;
    assert listing[..n][..n - 1] == listing[..n - 1];
    if i < n - 1 {
      WinnerIn(listing, i, n - 1);
    }
  }

  /** In an unambiguous tree nothing else is in the maps: what they hold under a path stands at some address with that
      path. */
  lemma NothingElse(entries: seq<Entry>, path: string) returns (address: Address, found: Found)
    requires Unambiguous(entries) && path in Tokens(entries, "")
    ensures path == PathOf("", address) && At(entries, address, None, found)
    ensures Holds(Tokens(entries, ""), Types(entries, "", None), path, found)
  {
    LookupIffUnambiguous(entries);
    hide At, Tokens, Types, PathOf;
    address, found := ValueOrigin(entries, "", None, path);
  }

  lemma {:induction false} CleanAddresses(entries: seq<Entry>, address: Address, inherited: Option<string>,
                                          found: Found)
    requires Clean(entries) && At(entries, address, inherited, found)
    ensures CleanAddress(address)
    decreases entries
  {
    var e :| e in entries && AtEntry(e, address, inherited, found);
    assert address == [address[0]] + address[1..];
    if e.node.Group? {
      CleanAddresses(e.node.entries, address[1..], Nearest(e.node.own, inherited), found);
    }
  }

  lemma {:induction false} OneAtAddress(entries: seq<Entry>, address: Address, inherited: Option<string>, f: Found,
                                        g: Found)
    requires Clean(entries)
    requires At(entries, address, inherited, f) && At(entries, address, inherited, g)
    ensures f == g
    decreases entries
  {
    var e :| e in entries && AtEntry(e, address, inherited, f);
    var e' :| e' in entries && AtEntry(e', address, inherited, g);
    assert e == e';
    if e.node.Group? {
      OneAtAddress(e.node.entries, address[1..], Nearest(e.node.own, inherited), f, g);
    }
  }

  /** Trees of distinct, non-empty keys without a dot are unambiguous: there a path has one address. */
  lemma CleanIsUnambiguous(entries: seq<Entry>)
    requires Clean(entries)
    ensures Unambiguous(entries)
  {
    hide At, PathOf;
    forall a, f, b, g | At(entries, a, None, f) && At(entries, b, None, g) && PathOf("", a) == PathOf("", b)
      ensures f == g
    {
      CleanAddresses(entries, a, None, f);
      CleanAddresses(entries, b, None, g);
      PathsDiffer("", a, b);
      OneAtAddress(entries, a, None, f, g);
    }
  }

  /** In a clean tree the lookup goes both ways, address by address. */
  lemma FlatteningIsLookup(entries: seq<Entry>, address: Address, found: Found)
    requires Clean(entries)
    ensures At(entries, address, None, found) <==>
      CleanAddress(address) && Holds(Tokens(entries, ""), Types(entries, "", None), PathOf("", address), found)
  {
    hide At, PathOf, Tokens, Types;
    CleanIsUnambiguous(entries);
    LookupIffUnambiguous(entries);
    if At(entries, address, None, found) {
      CleanAddresses(entries, address, None, found);
    } else if CleanAddress(address) && PathOf("", address) in Tokens(entries, "") {
      var origin, there := NothingElse(entries, PathOf("", address));
      CleanAddresses(entries, origin, None, there);
      PathsDiffer("", address, origin);
    }
  }

  function Dotting(value: Value, other: Value): seq<Entry> {
    [Entry("a", Group(None, [Entry("b", Token(value, Some("color")))])), Entry("a.b", Token(other, None))]
  }

  lemma NestedPath(value: Value, inner: seq<Entry>)
    requires inner == [Entry("b", Token(value, Some("color")))]
    ensures Tokens(inner, "a") == map["a.b" := value] && Types(inner, "a", None) == map["a.b" := "color"]
  {
    assert inner[..0] == [] && Dotted("a", "b") == "a.b";
  }

  /** A key with a dot can take another token's path: that path then has the value of one and the type of the other. */
  lemma DottedKeysMix(value: Value, other: Value)
    ensures var entries := Dotting(value, other);
      Tokens(entries, "") == map["a.b" := other] && Types(entries, "", None) == map["a.b" := "color"]
  {
    var inner := [Entry("b", Token(value, Some("color")))];
    var first := [Entry("a", Group(None, inner))];
    NestedPath(value, inner);
    assert first[..0] == [] && Dotting(value, other)[..1] == first;
    assert Tokens(first, "") == map["a.b" := value];
    assert Types(first, "", None) == map["a.b" := "color"];
  }

  /** So that tree is ambiguous. */
  lemma DottedKeysAreAmbiguous(value: Value, other: Value)
    ensures !Unambiguous(Dotting(value, other))
  {
    var entries, found := Dotting(value, other), Found(other, None);
    DottedKeysMix(value, other);
    LookupIffUnambiguous(entries);
    assert AtEntry(entries[1], ["a.b"], None, found) && entries[1] in entries;
    assert PathOf("", ["a.b"]) == PathOf("a.b", []) == "a.b";
    hide Tokens, Types, PathOf, AtEntry;
    assert At(entries, ["a.b"], None, found);
  }
}
