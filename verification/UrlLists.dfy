/**
 The comma-separated lists that two shell scripts print and the tests split
 (hermetic/src/cli/process-peers.sh, port-forward.sh, update.test.ts).
 */
module UrlLists {
  import opened Wrappers
  import opened DecimalSeconds

  predicate CommaFree(s: string) { ',' !in s }

  function Join(items: seq<string>): string {
    if items == [] then ""
    else if |items| == 1 then items[0]
    else items[0] + "," + Join(items[1..])
  }

  /** Splitting at commas; even the empty text has one piece. */
  function Split(s: string): (pieces: seq<string>)
    ensures |pieces| >= 1
  {
    if s == "" then [""]
    else if s[0] == ',' then [""] + Split(s[1..])
    else
      var rest := Split(s[1..]);
      [[s[0]] + rest[0]] + rest[1..]
  }

  function Commas(s: string): nat {
    if s == "" then 0 else (if s[0] == ',' then 1 else 0) + Commas(s[1..])
  }

  lemma {:induction false} SplitFirst(item: string, rest: string)
    requires CommaFree(item)
    ensures Split(item) == [item]
    ensures Split(item + "," + rest) == [item] + Split(rest)
  {
    if item == "" {
      assert item + "," + rest == "," + rest;
      assert ("," + rest)[1..] == rest;
    } else {
      SplitFirst(item[1..], rest);
      assert (item + "," + rest)[1..] == item[1..] + "," + rest;
      assert [item[0]] + item[1..] == item;
    }
  }

  /** Splitting recovers the items of any non-empty list without commas in them. */
  lemma {:induction false} SplitUndoesJoin(items: seq<string>)
    requires items != [] && forall i | 0 <= i < |items| :: CommaFree(items[i])
    ensures Split(Join(items)) == items
  {
    if |items| == 1 {
      SplitFirst(items[0], "");
    } else {
      SplitUndoesJoin(items[1..]);
      SplitFirst(items[0], Join(items[1..]));
      assert items == [items[0]] + items[1..];
    }
  }

  /** A longer first item makes a longer list and changes nothing else. */
  lemma JoinExtendsFirst(c: char, items: seq<string>)
    requires items != []
    ensures Join([[c] + items[0]] + items[1..]) == [c] + Join(items)
  {
    var longer := [[c] + items[0]] + items[1..];
    assert longer[1..] == items[1..];
    if |items| > 1 {
      assert [c] + (items[0] + "," + Join(items[1..])) == ([c] + items[0]) + "," + Join(items[1..]);
    }
  }

  /** Joining the pieces gives back any text at all. */
  lemma {:induction false} JoinUndoesSplit(s: string)
    ensures Join(Split(s)) == s
  {
    if s != "" {
      JoinUndoesSplit(s[1..]);
      var rest := Split(s[1..]);
      if s[0] == ',' {
        assert ([""] + rest)[1..] == rest;
        assert Join([""] + rest) == "" + "," + Join(rest);
      } else {
        JoinExtendsFirst(s[0], rest);
      }
      assert s == [s[0]] + s[1..];
    }
  }

  lemma {:induction false} PiecesAndCommas(s: string)
    ensures |Split(s)| == 1 + Commas(s)
  {
    if s != "" { PiecesAndCommas(s[1..]); }
  }

  lemma {:induction false} CommasConcat(a: string, b: string)
    ensures Commas(a + b) == Commas(a) + Commas(b)
  {
    if a == "" {
      assert a + b == b;
    } else {
      assert (a + b)[1..] == a[1..] + b;
      CommasConcat(a[1..], b);
    }
  }

  // ----- the printers -----

  function Repeat(item: string, n: nat): (r: seq<string>)
    ensures |r| == n && forall i :: 0 <= i < n ==> r[i] == item
  {
    seq(n, _ => item)
  }

  lemma {:induction false} JoinAppend(items: seq<string>, last: string)
    ensures Join(items + [last]) == if items == [] then last else Join(items) + "," + last
  {
    if items == [] {
      assert items + [last] == [last];
    } else {
      assert (items + [last])[1..] == items[1..] + [last];
      JoinAppend(items[1..], last);
      if |items| > 1 {
        assert items[0] + "," + (Join(items[1..]) + "," + last) == items[0] + "," + Join(items[1..]) + "," + last;
      } else {
        assert items[1..] == [];
      }
    }
  }

  lemma RepeatGrows(item: string, n: nat)
    ensures Join(Repeat(item, n + 1)) == (if n == 0 then "" else Join(Repeat(item, n)) + ",") + item
  {
    assert Repeat(item, n + 1) == Repeat(item, n) + [item];
    JoinAppend(Repeat(item, n), item);
  }

  /** The loop of process-peers: a comma after every item but the last. */
  method PrintSeeds(availablePeers: nat, secret: string) returns (seeds: string)
    ensures seeds == Join(Repeat(secret, availablePeers))
  {
    seeds := "";
    assert Repeat(secret, 0) == [];
    for i := 0 to availablePeers
      invariant seeds == Join(Repeat(secret, i)) + if 0 < i < availablePeers then "," else ""
    {
      RepeatGrows(secret, i);
      if i == availablePeers - 1 {
        seeds := seeds + secret;
      } else {
        seeds := seeds + (secret + ",");
      }
    }
  }

  function LocalUrl(port: nat): string { "http://localhost:" + Digits(port) }

  function LocalUrls(port: nat, pods: nat): (r: seq<string>)
    ensures |r| == pods && forall i :: 0 <= i < pods ==> r[i] == LocalUrl(port + 1 + i)
  {
    seq(pods, i requires i >= 0 => LocalUrl(port + 1 + i))
  }

  lemma LocalUrlsGrow(port: nat, n: nat)
    ensures Join(LocalUrls(port, n + 1)) ==
              (if n == 0 then "" else Join(LocalUrls(port, n)) + ",") + LocalUrl(port + 1 + n)
  {
    assert LocalUrls(port, n + 1) == LocalUrls(port, n) + [LocalUrl(port + 1 + n)];
    JoinAppend(LocalUrls(port, n), LocalUrl(port + 1 + n));
  }

  /** The loop of port-forward: a comma before every item but the first, for three lists at once. */
  method PrintForwards(pods: nat, adminKey: string) returns (composeDbUrls: string, ceramicUrls: string, seeds: string)
    ensures composeDbUrls == Join(LocalUrls(7007, pods))
    ensures ceramicUrls == Join(LocalUrls(5101, pods))
    ensures seeds == Join(Repeat(adminKey, pods))
  {
    composeDbUrls, ceramicUrls, seeds := "", "", "";
    var offset := 1;
    for i := 0 to pods
      invariant offset == i + 1
      invariant composeDbUrls == Join(LocalUrls(7007, i))
      invariant ceramicUrls == Join(LocalUrls(5101, i))
      invariant seeds == Join(Repeat(adminKey, i))
    {
      LocalUrlsGrow(7007, i);
      LocalUrlsGrow(5101, i);
      RepeatGrows(adminKey, i);
      if offset != 1 {
        composeDbUrls := composeDbUrls + ",";
        ceramicUrls := ceramicUrls + ",";
        seeds := seeds + ",";
      }
      composeDbUrls := composeDbUrls + LocalUrl(7007 + offset);
      ceramicUrls := ceramicUrls + LocalUrl(5101 + offset);
      seeds := seeds + adminKey;
      offset := offset + 1;
    }
  }

  /** The URL is that of a port on the local host, which reads back as this number. */
  ghost predicate NamesPort(url: string, port: nat) {
    "http://localhost:" <= url && LeadingDigits(url[|"http://localhost:"|..], 0) == port
  }

  /** The forwarded URLs come back from the list: one for each pod, of the ports after the first, all different. */
  lemma ForwardsReadBack(port: nat, pods: nat)
    requires pods >= 1
    ensures Split(Join(LocalUrls(port, pods))) == LocalUrls(port, pods)
    ensures forall i, j :: 0 <= i < j < pods ==> LocalUrls(port, pods)[i] != LocalUrls(port, pods)[j]
    ensures forall i | 0 <= i < pods :: NamesPort(LocalUrls(port, pods)[i], port + 1 + i)
  {
    var urls := LocalUrls(port, pods);
    forall i | 0 <= i < pods ensures CommaFree(urls[i]) && NamesPort(urls[i], port + 1 + i) {
      UrlCommaFree(port + 1 + i);
      UrlNamesPort(port + 1 + i);
    }
    SplitUndoesJoin(urls);
    forall i, j | 0 <= i < j < pods ensures urls[i] != urls[j] {
      UrlsDiffer(port + 1 + i, port + 1 + j);
    }
  }

  lemma UrlsDiffer(a: nat, b: nat)
    requires a != b
    ensures LocalUrl(a) != LocalUrl(b)
  {
    UrlNamesPort(a);
    UrlNamesPort(b);
  }

  lemma UrlCommaFree(port: nat)
    ensures CommaFree(LocalUrl(port))
  {
    DigitsCommaFree(port);
    assert CommaFree("http://localhost:");
  }

  lemma {:induction false} DigitsCommaFree(n: nat)
    ensures CommaFree(Digits(n))
  {
    if n >= 10 { DigitsCommaFree(n / 10); }
  }

  lemma UrlNamesPort(port: nat)
    ensures NamesPort(LocalUrl(port), port)
  {
    assert LocalUrl(port)[|"http://localhost:"|..] == Digits(port);
    DigitsReadBack(port, "");
    assert Digits(port) + "" == Digits(port);
  }

  // ----- the guard on the number of seeds -----

  lemma {:induction false} CommasOfRepeat(secret: string, n: nat)
    requires n >= 1
    ensures 1 + Commas(Join(Repeat(secret, n))) == n * (1 + Commas(secret))
  {
    if n == 1 {
      assert Repeat(secret, 1) == [secret];
    } else {
      var fewer := Repeat(secret, n - 1);
      assert Repeat(secret, n) == fewer + [secret];
      JoinAppend(fewer, secret);
      CommasConcat(Join(fewer) + ",", secret);
      CommasConcat(Join(fewer), ",");
      CommasOfRepeat(secret, n - 1);
    }
  }

  /** The addresses that the peers have, those without one left out. */
  function Present(addresses: seq<Option<string>>): seq<string> {
    if addresses == [] then []
    else if addresses[0].Some? then [addresses[0].value] + Present(addresses[1..])
    else Present(addresses[1..])
  }

  lemma {:induction false} PresentAreAddresses(addresses: seq<Option<string>>)
    ensures |Present(addresses)| <= |addresses|
    ensures forall a | a in Present(addresses) :: Some(a) in addresses
  {
    if addresses != [] { PresentAreAddresses(addresses[1..]); }
  }

  lemma {:induction false} PresentConcat(a: seq<Option<string>>, b: seq<Option<string>>)
    ensures Present(a + b) == Present(a) + Present(b)
  {
    if a == [] {
      assert a + b == b;
    } else {
      assert (a + b)[1..] == a[1..] + b;
      PresentConcat(a[1..], b);
    }
  }

  /** `at` names the peers that have an address, in order, and `urls` are their addresses. */
  ghost predicate AddressesAt(addresses: seq<Option<string>>, urls: seq<string>, at: seq<nat>) {
    && |at| == |urls|
    && (forall i, j | 0 <= i < j < |at| :: at[i] < at[j])
    && (forall i | 0 <= i < |at| :: at[i] < |addresses| && addresses[at[i]] == Some(urls[i]))
    && (forall p: nat | p < |addresses| && addresses[p].Some? :: p in at)
  }

  /** Each address that a peer has is in the list once for that peer, in the order of the peers. */
  lemma {:induction false} PresentInOrder(addresses: seq<Option<string>>) returns (at: seq<nat>)
    ensures AddressesAt(addresses, Present(addresses), at)
  {
    if addresses == [] {
      at := [];
    } else {
      var peers, last := addresses[..|addresses| - 1], |addresses| - 1;
      at := PresentInOrder(peers);
      assert addresses == peers + [addresses[last]];
      PresentConcat(peers, [addresses[last]]);
      assert Present([addresses[last]]) == if addresses[last].Some? then [addresses[last].value] else [];
      if addresses[last].Some? { at := at + [last]; }
      forall p: nat | p < |addresses| && addresses[p].Some? ensures p in at {
        if p < last { assert peers[p] == addresses[p]; }
      }
    }
  }

  lemma {:induction false} AllPresent(addresses: seq<Option<string>>)
    requires forall i | 0 <= i < |addresses| :: addresses[i].Some?
    ensures |Present(addresses)| == |addresses|
    ensures forall i | 0 <= i < |addresses| :: Present(addresses)[i] == addresses[i].value
  {
    if addresses != [] { AllPresent(addresses[1..]); }
  }

  /** Each peer contributes one piece to the list of seeds, and one more for each comma in the secret. */
  lemma SeedCount(n: nat, secret: string)
    requires n >= 1
    ensures |Split(Join(Repeat(secret, n)))| == n * (1 + Commas(secret))
  {
    PiecesAndCommas(Join(Repeat(secret, n)));
    CommasOfRepeat(secret, n);
  }

  /** Of a secret without commas, the tests read back one copy a peer. */
  lemma SeedsReadBack(n: nat, secret: string)
    requires n >= 1 && CommaFree(secret)
    ensures Split(Join(Repeat(secret, n))) == Repeat(secret, n)
  {
    SplitUndoesJoin(Repeat(secret, n));
  }

  /**
   The tests refuse to start when there are fewer seeds than URLs. With lists printed for the same
   peers, that never happens, even if some peers have no address and whatever the secret.
   */
  lemma SeedsCoverUrls(addresses: seq<Option<string>>, secret: string)
    requires addresses != [] && forall a | a in Present(addresses) :: CommaFree(a)
    ensures |Split(Join(Repeat(secret, |addresses|)))| >= |addresses| >= |Split(Join(Present(addresses)))|
  {
    SeedCount(|addresses|, secret);
    TimesAtLeast(|addresses|, Commas(secret));
    PresentAreAddresses(addresses);
    if Present(addresses) != [] { SplitUndoesJoin(Present(addresses)); }
  }

  lemma TimesAtLeast(n: nat, c: nat)
    ensures n * (1 + c) >= n
  {
    assert n * (1 + c) == n + n * c;
  }

  // ----- waiting for peers -----

  /**
   What one look at the peers file shows. `Unreadable`: no whole number of peers can be got from it, as
   when it is missing, empty or not JSON. `Peers`: a list of peers, or an object whose values are peers,
   some of them without an address. `Counted`: other JSON that has a length but holds no peers to take
   addresses from, such as null (of length 0), a string or a number.
   */
  datatype Look = Unreadable | Peers(addresses: seq<Option<string>>) | Counted(length: nat)

  datatype Env = Env(composeDbUrls: string, seeds: string)

  /** The number of copies of the secret that the loop prints. */
  function AvailablePeers(look: Look): nat {
    match look
    case Unreadable => 0
    case Peers(addresses) => |addresses|
    case Counted(length) => length
  }

  /** The script goes on waiting only when the number printed is 0; nothing printed is not 0. */
  predicate ShowsNone(look: Look) {
    !look.Unreadable? && AvailablePeers(look) == 0
  }

  /** What makes it wait: an empty list or object, or other JSON of length 0. */
  lemma ShowsNoneIff(look: Look)
    ensures ShowsNone(look) <==> look == Peers([]) || look == Counted(0)
  {
  }

  function Urls(look: Look): string {
    if look.Peers? then Join(Present(look.addresses)) else ""
  }

  function Printed(look: Look, secret: string): Env {
    Env(Urls(look), Join(Repeat(secret, AvailablePeers(look))))
  }

  /** The looks from n on, of thirty in all. */
  function PeersRun(looks: nat -> Look, secret: string, n: nat): Option<Env>
    decreases 30 - n
  {
    if n >= 30 then None
    else if ShowsNone(looks(n)) then PeersRun(looks, secret, n + 1)
    else Some(Printed(looks(n), secret))
  }

  method ProcessPeers(looks: nat -> Look, secret: string) returns (r: Option<Env>)
    ensures r == PeersRun(looks, secret, 0)
    ensures r == None <==> forall k: nat | k < 30 :: ShowsNone(looks(k))
    ensures forall k | FirstLook(looks, 0, k) && SomeAddress(looks(k)) ::
              r.Some? && IsAddressList(looks(k).addresses, Split(r.value.composeDbUrls))
    ensures forall k | FirstLook(looks, 0, k) && looks(k).Peers? && CommaFree(secret) ::
              r.Some? && Split(r.value.seeds) == Repeat(secret, |looks(k).addresses|)
  {
    EndsAtFirstLook(looks, secret, 0);
    forall k | FirstLook(looks, 0, k) && looks(k).Peers? && CommaFree(secret)
      ensures Split(Printed(looks(k), secret).seeds) == Repeat(secret, |looks(k).addresses|)
    {
      SeedsReadBack(|looks(k).addresses|, secret);
    }
    forall k | FirstLook(looks, 0, k) && SomeAddress(looks(k))
      ensures IsAddressList(looks(k).addresses, Split(Printed(looks(k), secret).composeDbUrls))
    {
      UrlsReadBack(looks(k), secret);
    }
    var n := 0;
    while n < 30
      invariant 0 <= n <= 30
      invariant PeersRun(looks, secret, 0) == PeersRun(looks, secret, n)
    {
      var look := looks(n);
      if !look.Unreadable? && AvailablePeers(look) == 0 {
        n := n + 1;
      } else {
        var seeds := PrintSeeds(AvailablePeers(look), secret);
        return Some(Env(Urls(look), seeds));
      }
    }
    return None;
  }

  /** A look at a list of peers, at least one of them with an address, and no commas in the addresses. */
  ghost predicate SomeAddress(look: Look) {
    && look.Peers?
    && (exists i | 0 <= i < |look.addresses| :: look.addresses[i].Some?)
    && forall i | 0 <= i < |look.addresses| :: look.addresses[i].Some? ==> CommaFree(look.addresses[i].value)
  }

  ghost predicate IsAddressList(addresses: seq<Option<string>>, urls: seq<string>) {
    exists at: seq<nat> :: AddressesAt(addresses, urls, at)
  }

  /** Splitting the URLs printed for such a look lists exactly the addresses that the peers have, in order. */
  lemma UrlsReadBack(look: Look, secret: string)
    requires SomeAddress(look)
    ensures var urls := Split(Printed(look, secret).composeDbUrls);
            urls == Present(look.addresses) && IsAddressList(look.addresses, urls)
  {
    var urls := Present(look.addresses);
    var at := PresentInOrder(look.addresses);
    forall i | 0 <= i < |urls| ensures CommaFree(urls[i]) { assert look.addresses[at[i]] == Some(urls[i]); }
    var p: nat :| p < |look.addresses| && look.addresses[p].Some?;
    assert p in at;
    SplitUndoesJoin(urls);
  }

  /** If every peer has one, that is all of them. */
  lemma AllUrlsReadBack(look: Look, secret: string)
    requires SomeAddress(look) && forall i | 0 <= i < |look.addresses| :: look.addresses[i].Some?
    ensures var urls := Split(Printed(look, secret).composeDbUrls);
            |urls| == |look.addresses| && forall i | 0 <= i < |urls| :: look.addresses[i] == Some(urls[i])
  {
    UrlsReadBack(look, secret);
    AllPresent(look.addresses);
  }

  /** Look k is the first from n on that does not show that there are no peers. */
  ghost predicate FirstLook(looks: nat -> Look, n: nat, k: nat) {
    n <= k < 30 && !ShowsNone(looks(k)) && forall l | n <= l < k :: ShowsNone(looks(l))
  }

  /** The script fails exactly if every look shows no peers, and otherwise prints what the first other look shows. */
  lemma {:induction false} EndsAtFirstLook(looks: nat -> Look, secret: string, n: nat)
    ensures PeersRun(looks, secret, n) == None <==> forall k | n <= k < 30 :: ShowsNone(looks(k))
    ensures forall k | FirstLook(looks, n, k) :: PeersRun(looks, secret, n) == Some(Printed(looks(k), secret))
    decreases 30 - n
  {
    if n < 30 && ShowsNone(looks(n)) {
      EndsAtFirstLook(looks, secret, n + 1);
      forall k | FirstLook(looks, n, k) ensures FirstLook(looks, n + 1, k) {}
    }
  }

  /** No seeds at all are printed exactly for an unreadable file, or for one peer and an empty secret. */
  lemma NoSeedsIffUnreadable(look: Look, secret: string)
    requires !ShowsNone(look)
    ensures Printed(look, secret).seeds == "" <==> look.Unreadable? || (AvailablePeers(look) == 1 && secret == "")
  {
    if !look.Unreadable? {
      RepeatGrows(secret, AvailablePeers(look) - 1);
    }
  }

  /** A script that finds no readable file succeeds at once with empty lists; the tests then have one empty URL. */
  lemma UnreadableFileSucceeds(secret: string)
    ensures PeersRun((k: nat) => Unreadable, secret, 0) == Some(Env("", ""))
    ensures Split(Printed(Unreadable, secret).composeDbUrls) == [""] == Split(Printed(Unreadable, secret).seeds)
  {
    EndsAtFirstLook((k: nat) => Unreadable, secret, 0);
    assert FirstLook((k: nat) => Unreadable, 0, 0);
  }

  /** Whatever the script prints, the tests are never refused for want of seeds. */
  lemma GuardNeverFires(looks: nat -> Look, secret: string)
    requires forall k: nat | looks(k).Peers? :: forall a | a in Present(looks(k).addresses) :: CommaFree(a)
    ensures var env := PeersRun(looks, secret, 0);
            env.Some? ==> |Split(env.value.seeds)| >= |Split(env.value.composeDbUrls)|
  {
    EndsAtFirstLook(looks, secret, 0);
    if PeersRun(looks, secret, 0).Some? {
      var k := LeastLook(looks, 0);
      if looks(k).Peers? {
        SeedsCoverUrls(looks(k).addresses, secret);
      }
    }
  }

  lemma {:induction false} LeastLook(looks: nat -> Look, n: nat) returns (k: nat)
    requires exists k | n <= k < 30 :: !ShowsNone(looks(k))
    ensures FirstLook(looks, n, k)
    decreases 30 - n
  {
    if !ShowsNone(looks(n)) { k := n; } else { k := LeastLook(looks, n + 1); }
  }
}
