/**
 * The locate client: a registry of one client per redirector host, the
 * filter that turns the tokens of a kXR_locate response into host names,
 * and the batch `Map` that unions those names into a sorted vector.
 *
 * The request itself (building it and `SendGenCommand`) is network I/O:
 * its outcome is a `LocateReply` handed in by the caller.  `Entries` carries
 * the tokens of the response text in order.  `Locate` walks whatever tokens
 * it is given; `Tokenize` is the split the program actually makes, with
 * `boost::tokenizer<>`'s default separator, and `CollectTokenized`,
 * `GatherTokenized` and `MapTokenizedReplies` give what that split implies.
 */
module XrootdClientModel {
  import opened HostOrder

  datatype Option<T> = None | Some(value: T)

  /** How a call ends: normally with a value, or by `std::out_of_range` escaping it. */
  datatype Outcome<T> = Normal(value: T) | OutOfRange

  /** What the server's answer to one locate request looks like to `locate`. */
  datatype LocateReply =
    | SendFailed                    // SendGenCommand reported failure
    | NullResponse                  // it succeeded but left the response buffer null
    | EmptyResponse                 // the response text is ""
    | Entries(tokens: seq<string>)  // the tokens of a non-empty response text

  /** `pat` occurs in `s` starting at position `k`. */
  predicate OccursAt(s: string, pat: string, k: nat)
  {
    k + |pat| <= |s| && s[k..k + |pat|] == pat
  }

  /**
   * `s.find(pat, from)`: the first position at or after `from` where `pat`
   * occurs, or `None` for `npos`.
   */
  function Find(s: string, pat: string, from: nat): (r: Option<nat>)
    ensures r.Some? ==> from <= r.value && OccursAt(s, pat, r.value)
    ensures r.Some? ==> forall k :: from <= k < r.value ==> !OccursAt(s, pat, k)
    ensures r.None? ==> forall k :: from <= k ==> !OccursAt(s, pat, k)
    decreases |s| - from
  {
    if from + |pat| > |s| then None
    else if s[from..from + |pat|] == pat then Some(from)
    else Find(s, pat, from + 1)
  }

  /** `find` stops at the first occurrence: nothing earlier, then `pat` at `k`. */
  lemma {:induction false} FindFirst(s: string, pat: string, from: nat, k: nat)
    requires from <= k && OccursAt(s, pat, k)
    requires forall j :: from <= j < k ==> !OccursAt(s, pat, j)
    ensures Find(s, pat, from) == Some(k)
    decreases k - from
  {
    if from < k {
      assert !OccursAt(s, pat, from);
      FindFirst(s, pat, from + 1, k);
    }
  }

  /** Node types `locate` accepts: data server, pending data server, manager, pending manager. */
  predicate AcceptedNodeType(c: char)
  {
    c == 'S' || c == 's' || c == 'M' || c == 'm'
  }

  /** Long enough, `[` at index 2 and `:` at index 4: the shape `xy[?:...` of a locate entry. */
  predicate Framed(token: string)
  {
    |token| >= 8 && token[2] == '[' && token[4] == ':'
  }

  /** What `locate` does with one token. */
  datatype Verdict =
    | Skip               // `continue`: malformed or of another node type
    | Host(name: string) // inserted into the caller's host set
    | Throws             // `erase(npos)` throws `std::out_of_range`

  /** The marker in front of an address that `locate` unwraps. */
  const Ipv4Marker: string := "[::"

  /**
   * One token of a locate response: skipped unless framed and of an
   * accepted node type; otherwise, when `[::` occurs from index 2 on, the
   * text between its first occurrence and the next `]`, and if no `]`
   * follows, `std::out_of_range`; without the marker, the token itself.
   */
  function Normalize(token: string): (v: Verdict)
    ensures v.Skip? <==> !(Framed(token) && AcceptedNodeType(token[0]))
    ensures v.Host? && Find(token, Ipv4Marker, 2).None? ==> v.name == token
    ensures v.Host? && Find(token, Ipv4Marker, 2).Some? ==>
      var start := Find(token, Ipv4Marker, 2).value + 3;
      && start + |v.name| < |token|
      && token[start..start + |v.name|] == v.name
      && token[start + |v.name|] == ']'
      && ']' !in v.name
    ensures v.Throws? <==>
      && Framed(token) && AcceptedNodeType(token[0])
      && Find(token, Ipv4Marker, 2).Some?
      && ']' !in token[Find(token, Ipv4Marker, 2).value + 3..]
  {
    if |token| < 8 || token[2] != '[' || token[4] != ':' then Skip
    else if !AcceptedNodeType(token[0]) then Skip
    else
      match Find(token, Ipv4Marker, 2)
      case None => Host(token)
      case Some(p) =>
        var rest := token[p + 3..];
        match Find(rest, "]", 0)
        case None =>
          assert ']' !in rest by {
            forall k | 0 <= k < |rest|
              ensures rest[k] != ']'
            {
              assert !OccursAt(rest, "]", k);
              assert rest[k..k + 1] == [rest[k]];
            }
          }
          Throws
        case Some(q) =>
          assert rest[q..q + 1] == [rest[q]];
          assert ']' !in rest[..q] by {
            forall k | 0 <= k < q
              ensures rest[k] != ']'
            {
              assert !OccursAt(rest, "]", k);
              assert rest[k..k + 1] == [rest[k]];
            }
          }
          Host(rest[..q])
  }

  /**
   * A locate entry `xy[::addr]:port` as the XRootD protocol lays it out,
   * `x` the node type and `y` the access mode.
   */
  function Entry(nodeType: char, mode: char, address: string, port: string): string
  {
    [nodeType, mode] + Ipv4Marker + address + "]:" + port
  }

  /**
   * Normalizing recovers the address of any such entry of an accepted node
   * type, provided the address holds no `]` and the entry reaches the
   * minimum length.
   */
  lemma NormalizeEntry(nodeType: char, mode: char, address: string, port: string)
    requires AcceptedNodeType(nodeType)
    requires ']' !in address
    requires |address| + |port| >= 1
    ensures Normalize(Entry(nodeType, mode, address, port)) == Host(address)
  {
    var token := Entry(nodeType, mode, address, port);
    assert token[2..5] == Ipv4Marker;
    var rest := token[5..];
    assert rest == address + "]:" + port;
    assert OccursAt(rest, "]", |address|) by {
      assert rest[|address|..|address| + 1] == "]";
    }
    forall j | 0 <= j < |address|
      ensures !OccursAt(rest, "]", j)
    {
      assert rest[j..j + 1] == [address[j]];
      assert address[j] in address;
    }
    FindFirst(rest, "]", 0, |address|);
  }

  /** An entry of any other node type is skipped. */
  lemma NormalizeRejectsNodeType(nodeType: char, mode: char, address: string, port: string)
    requires !AcceptedNodeType(nodeType)
    ensures Normalize(Entry(nodeType, mode, address, port)) == Skip
  {
  }

  /** The example entry of the protocol: a data server at 10.0.0.5. */
  lemma NormalizeExamples()
    ensures Normalize("Sr[::10.0.0.5]:1094") == Host("10.0.0.5")
    ensures Normalize("Sr[::") == Skip
    ensures Normalize("Sr[::10.0.0.5") == Throws
  {
    NormalizeEntry('S', 'r', "10.0.0.5", "1094");
    assert "Sr[::10.0.0.5]:1094" == Entry('S', 'r', "10.0.0.5", "1094");
    var t := "Sr[::10.0.0.5";
    assert t[2..5] == Ipv4Marker;
    assert t[5..] == "10.0.0.5";
  }

  /** The host set after `locate` has walked `tokens`, and whether it threw part-way. */
  datatype Harvest = Harvest(hosts: set<string>, threw: bool)

  /**
   * The loop of `locate` over `tokens`, starting from the caller's `hosts`:
   * each token in turn is skipped or its host inserted, until a token
   * throws, after which nothing more happens.
   */
  function Collect(tokens: seq<string>, hosts: set<string>): (r: Harvest)
    ensures hosts <= r.hosts
    decreases |tokens|
  {
    if tokens == [] then Harvest(hosts, false)
    else
      var prior := Collect(tokens[..|tokens| - 1], hosts);
      if prior.threw then prior
      else
        match Normalize(tokens[|tokens| - 1])
        case Skip => prior
        case Host(h) => Harvest(prior.hosts + {h}, false)
        case Throws => Harvest(prior.hosts, true)
  }

  /**
   * Without a throw, `locate` adds exactly the hosts of the tokens it
   * accepts; it throws exactly when some accepted token has `[::` and no
   * closing `]`.
   */
  lemma {:induction false} CollectComplete(tokens: seq<string>, hosts: set<string>)
    ensures Collect(tokens, hosts).threw <==> exists i :: 0 <= i < |tokens| && Normalize(tokens[i]).Throws?
    ensures !Collect(tokens, hosts).threw ==>
      forall h :: h in Collect(tokens, hosts).hosts <==>
        h in hosts || exists i :: 0 <= i < |tokens| && Normalize(tokens[i]) == Host(h)
    decreases |tokens|
  {
    if tokens != [] {
      var init := tokens[..|tokens| - 1];
      CollectComplete(init, hosts);
      assert forall i :: 0 <= i < |init| ==> init[i] == tokens[i];
      assert tokens == init + [tokens[|tokens| - 1]];
    }
  }

  /** Once a prefix of the tokens has thrown, the rest of them are never looked at. */
  lemma {:induction false} CollectStopsAtThrow(tokens: seq<string>, k: nat, hosts: set<string>)
    requires k <= |tokens|
    requires Collect(tokens[..k], hosts).threw
    ensures Collect(tokens, hosts) == Collect(tokens[..k], hosts)
    decreases |tokens| - k
  {
    if k < |tokens| {
      assert tokens[..|tokens| - 1][..k] == tokens[..k];
      CollectStopsAtThrow(tokens[..|tokens| - 1], k, hosts);
    } else {
      assert tokens[..k] == tokens;
    }
  }

  /** The effect on the caller's host set of one `locate` that got `reply`. */
  function LocateEffect(reply: LocateReply, hosts: set<string>): Harvest
  {
    match reply
    case Entries(tokens) => Collect(tokens, hosts)
    case _ => Harvest(hosts, false)
  }

  /**
   * The hosts `Map` has gathered after one `locate` per reply in turn,
   * starting from an empty set, and whether one of them threw.
   */
  function Gather(replies: seq<LocateReply>): (r: Harvest)
    decreases |replies|
  {
    if replies == [] then Harvest({}, false)
    else
      var prior := Gather(replies[..|replies| - 1]);
      if prior.threw then prior else LocateEffect(replies[|replies| - 1], prior.hosts)
  }

  /**
   * Without a throw, what `Map` gathers is the union over all replies of
   * the hosts of their accepted tokens; it throws exactly when some reply
   * holds a token that throws.
   */
  lemma {:induction false} GatherComplete(replies: seq<LocateReply>)
    ensures Gather(replies).threw <==>
      exists i, j :: 0 <= i < |replies| && replies[i].Entries? && 0 <= j < |replies[i].tokens|
        && Normalize(replies[i].tokens[j]).Throws?
    ensures !Gather(replies).threw ==>
      forall h :: h in Gather(replies).hosts <==>
        exists i, j :: 0 <= i < |replies| && replies[i].Entries? && 0 <= j < |replies[i].tokens|
          && Normalize(replies[i].tokens[j]) == Host(h)
    decreases |replies|
  {
    if replies != [] {
      var init := replies[..|replies| - 1];
      var last := replies[|replies| - 1];
      GatherComplete(init);
      assert forall i :: 0 <= i < |init| ==> init[i] == replies[i];
      if last.Entries? {
        CollectComplete(last.tokens, Gather(init).hosts);
      }
    }
  }

  /** Once a prefix of the replies has thrown, `Map` does not go on. */
  lemma {:induction false} GatherStopsAtThrow(replies: seq<LocateReply>, k: nat)
    requires k <= |replies|
    requires Gather(replies[..k]).threw
    ensures Gather(replies) == Gather(replies[..k])
    decreases |replies| - k
  {
    if k < |replies| {
      assert replies[..|replies| - 1][..k] == replies[..k];
      GatherStopsAtThrow(replies[..|replies| - 1], k);
    } else {
      assert replies[..k] == replies;
    }
  }

  /** `isspace` in the "C" locale. */
  predicate IsSpace(c: char)
  {
    c == ' ' || '\t' <= c <= '\r'
  }

  /** `ispunct` in the "C" locale: printable ASCII that is not a letter, a digit or a space. */
  predicate IsPunct(c: char)
  {
    '!' <= c <= '/' || ':' <= c <= '@' || '[' <= c <= '`' || '{' <= c <= '~'
  }

  /**
   * The separator a default-constructed `boost::tokenizer<>` uses,
   * `char_delimiters_separator<char>`: whitespace and punctuation both
   * separate tokens, and neither is returned.
   */
  predicate IsDelimiter(c: char)
  {
    IsSpace(c) || IsPunct(c)
  }

  /** The length of the run of non-delimiters that starts `s`. */
  function WordLength(s: string): (n: nat)
    ensures n <= |s|
    ensures forall k :: 0 <= k < n ==> !IsDelimiter(s[k])
    ensures n < |s| ==> IsDelimiter(s[n])
    decreases |s|
  {
    if s == [] || IsDelimiter(s[0]) then 0 else 1 + WordLength(s[1..])
  }

  /**
   * The tokens `boost::tokenizer<>` yields for `text`, in order: the
   * maximal non-empty runs of characters that are neither whitespace nor
   * punctuation.
   */
  function Tokenize(text: string): (r: seq<string>)
    ensures forall i :: 0 <= i < |r| ==> r[i] != []
    ensures forall i, k :: 0 <= i < |r| && 0 <= k < |r[i]| ==> !IsDelimiter(r[i][k])
    decreases |text|
  {
    if text == [] then []
    else if IsDelimiter(text[0]) then Tokenize(text[1..])
    else
      var n := WordLength(text);
      [text[..n]] + Tokenize(text[n..])
  }

  /** The characters of `text` that are not delimiters, in order. */
  function Letters(text: string): string
    decreases |text|
  {
    if text == [] then []
    else if IsDelimiter(text[0]) then Letters(text[1..])
    else [text[0]] + Letters(text[1..])
  }

  /** The tokens laid end to end. */
  function Concat(tokens: seq<string>): string
    decreases |tokens|
  {
    if tokens == [] then [] else tokens[0] + Concat(tokens[1..])
  }

  /** A run without delimiters is kept whole by `Letters`. */
  lemma {:induction false} LettersOfWord(text: string, n: nat)
    requires n <= |text|
    requires forall k :: 0 <= k < n ==> !IsDelimiter(text[k])
    ensures Letters(text) == text[..n] + Letters(text[n..])
    decreases n
  {
    if n > 0 {
      LettersOfWord(text[1..], n - 1);
      assert text[1..][n - 1..] == text[n..];
      assert text[..n] == [text[0]] + text[1..][..n - 1];
    }
  }

  /**
   * Tokenizing loses the delimiters and nothing else: the tokens laid end
   * to end are the other characters of the text, in order.
   */
  lemma {:induction false} TokenizeKeepsLetters(text: string)
    ensures Concat(Tokenize(text)) == Letters(text)
    decreases |text|
  {
    if text != [] {
      if IsDelimiter(text[0]) {
        TokenizeKeepsLetters(text[1..]);
      } else {
        var n := WordLength(text);
        TokenizeKeepsLetters(text[n..]);
        LettersOfWord(text, n);
        assert ([text[..n]] + Tokenize(text[n..]))[1..] == Tokenize(text[n..]);
      }
    }
  }

  /**
   * No token `boost::tokenizer<>` yields has `[` at index 2, so `locate`
   * skips every one of them: it inserts no host and never throws.
   */
  lemma {:induction false} CollectTokenized(text: string, hosts: set<string>)
    ensures Collect(Tokenize(text), hosts) == Harvest(hosts, false)
  {
    var tokens := Tokenize(text);
    forall i | 0 <= i < |tokens|
      ensures Normalize(tokens[i]) == Skip
    {
      if |tokens[i]| > 2 {
        assert !IsDelimiter(tokens[i][2]);
      }
    }
    CollectComplete(tokens, hosts);
  }

  /**
   * No locate entry `xy[::addr]:port` is ever one of the tokens: its `[`
   * separates it, so the entries `NormalizeEntry` unwraps never reach
   * `Normalize` whole.
   */
  lemma EntryNeverAToken(text: string, nodeType: char, mode: char, address: string, port: string)
    ensures Entry(nodeType, mode, address, port) !in Tokenize(text)
  {
    var tokens := Tokenize(text);
    var entry := Entry(nodeType, mode, address, port);
    assert entry[2] == '[';
    forall i | 0 <= i < |tokens|
      ensures tokens[i] != entry
    {
      if |tokens[i]| > 2 {
        assert !IsDelimiter(tokens[i][2]);
      }
    }
  }

  /** The reply's tokens, if any, are what `boost::tokenizer<>` yields for some response text. */
  ghost predicate Tokenized(reply: LocateReply)
  {
    reply.Entries? ==> exists text :: reply.tokens == Tokenize(text)
  }

  /**
   * When every reply was split by `boost::tokenizer<>`, `Map` gathers no
   * host at all and no `locate` throws.
   */
  lemma GatherTokenized(replies: seq<LocateReply>)
    requires forall i :: 0 <= i < |replies| ==> Tokenized(replies[i])
    ensures Gather(replies) == Harvest({}, false)
  {
    forall i, j | 0 <= i < |replies| && replies[i].Entries? && 0 <= j < |replies[i].tokens|
      ensures Normalize(replies[i].tokens[j]) == Skip
    {
      var text :| replies[i].tokens == Tokenize(text);
      var t := replies[i].tokens[j];
      if |t| > 2 {
        assert !IsDelimiter(t[2]);
      }
    }
    GatherComplete(replies);
  }

  /** A client for one redirector host. */
  class FileMappingClient {
    const url: string
    const host: string

    /** The client for `hostname`, addressed as `root://hostname`. */
    constructor (hostname: string)
      ensures host == hostname
      ensures url == "root://" + hostname
    {
      url := "root://" + hostname;
      host := hostname;
    }

    /**
     * Adds to `hosts` the host names of the serving nodes in `reply`.
     * A failed send or a null response gives `false` and adds nothing; an
     * empty response adds nothing and gives `-1`, which as a `bool` is
     * `true`; otherwise the tokens are walked in order, each skipped or its
     * host inserted, and the result is `true` unless a token throws.
     */
    method Locate(reply: LocateReply, hosts: set<string>) returns (result: Outcome<bool>, found: set<string>)
      ensures reply.SendFailed? || reply.NullResponse? ==> result == Normal(false) && found == hosts
      ensures reply.EmptyResponse? ==> result == Normal(true) && found == hosts
      ensures reply.Entries? ==> found == Collect(reply.tokens, hosts).hosts
      ensures reply.Entries? ==> result == if Collect(reply.tokens, hosts).threw then OutOfRange else Normal(true)
    {
      match reply
      case SendFailed =>
        return Normal(false), hosts;
      case NullResponse =>
        return Normal(false), hosts;
      case EmptyResponse =>
        return Normal(-1 != 0), hosts;
      case Entries(tokens) =>
        found := hosts;
        var i := 0;
        while i < |tokens|
          invariant 0 <= i <= |tokens|
          invariant Collect(tokens[..i], hosts) == Harvest(found, false)
        {
          assert tokens[..i + 1][..i] == tokens[..i];
          match Normalize(tokens[i]) {
            case Skip =>
            case Host(h) =>
              found := found + {h};
            case Throws =>
              CollectStopsAtThrow(tokens, i + 1, hosts);
              return OutOfRange, found;
          }
          i := i + 1;
        }
        assert tokens[..i] == tokens;
        return Normal(true), found;
    }

    /**
     * Locates every file in turn, the i-th request answered by `replies[i]`,
     * then replaces `hosts` by the union of what was found, ascending and
     * without duplicates, and returns `true`.  A throw from `locate`
     * escapes and leaves `hosts` as it was.
     */
    method Map(filenames: seq<string>, replies: seq<LocateReply>, hosts: seq<string>)
      returns (result: Outcome<bool>, hostsOut: seq<string>)
      requires |replies| == |filenames|
      ensures Gather(replies).threw ==> result == OutOfRange && hostsOut == hosts
      ensures !Gather(replies).threw ==> result == Normal(true)
      ensures !Gather(replies).threw ==> StrictlyAscending(hostsOut)
      ensures !Gather(replies).threw ==> forall h :: h in hostsOut <==> h in Gather(replies).hosts
      ensures !Gather(replies).threw ==> |hostsOut| == |Gather(replies).hosts|
    {
      var hostsSet: set<string> := {};
      var i := 0;
      while i < |filenames|
        invariant 0 <= i <= |filenames|
        invariant Gather(replies[..i]) == Harvest(hostsSet, false)
      {
        assert replies[..i + 1][..i] == replies[..i];
        var located, found := Locate(replies[i], hostsSet);
        if located.OutOfRange? {
          GatherStopsAtThrow(replies, i + 1);
          return OutOfRange, hosts;
        }
        hostsSet := found;
        i := i + 1;
      }
      assert replies[..i] == replies;

      hostsOut := [];
      var rest := hostsSet;
      while rest != {}
        invariant StrictlyAscending(hostsOut)
        invariant forall h :: h in hostsSet <==> h in hostsOut || h in rest
        invariant forall h :: h in hostsOut ==> h !in rest
        invariant forall k, h :: 0 <= k < |hostsOut| && h in rest ==> Less(hostsOut[k], h)
        decreases rest
      {
        var h := Least(rest);
        hostsOut := hostsOut + [h];
        rest := rest - {h};
      }
      AscendingLength(hostsOut, hostsSet);
      result := Normal(true);
    }
  }

  /**
   * `map` as the program runs it: every response split by
   * `boost::tokenizer<>`, so the result is `true` and the vector empty.
   */
  method MapTokenizedReplies(client: FileMappingClient, filenames: seq<string>,
                             replies: seq<LocateReply>, hosts: seq<string>)
      returns (result: Outcome<bool>, hostsOut: seq<string>)
    requires |replies| == |filenames|
    requires forall i :: 0 <= i < |replies| ==> Tokenized(replies[i])
    ensures result == Normal(true) && hostsOut == []
  {
    GatherTokenized(replies);
    result, hostsOut := client.Map(filenames, replies, hosts);
  }

  /** `m_instance_table`: one client per host name, never removed. */
  class ClientRegistry {
    var instances: map<string, FileMappingClient>

    /**
     * Every registered client serves the host it is registered under: the
     * table is private and written only with a client made for that host.
     */
    predicate Valid()
      reads this
    {
      forall h :: h in instances ==> instances[h].host == h
    }

    constructor ()
      ensures Valid()
      ensures instances == map[]
    {
      instances := map[];
    }

    /**
     * The client registered for `hostname`, made and registered first if
     * there is none; no other entry changes.
     */
    method GetClient(hostname: string) returns (client: FileMappingClient)
      requires Valid()
      modifies this
      ensures Valid()
      ensures hostname in old(instances) ==> client == old(instances)[hostname] && instances == old(instances)
      ensures hostname !in old(instances) ==> fresh(client) && instances == old(instances)[hostname := client]
      ensures hostname in instances && instances[hostname] == client
      ensures client.host == hostname
    {
      if hostname !in instances {
        var newClient := new FileMappingClient(hostname);
        instances := instances[hostname := newClient];
        client := newClient;
      } else {
        client := instances[hostname];
      }
    }
  }

  /** Asking twice for the same host gives the same client for that host, and registers it once. */
  method GetClientTwice(registry: ClientRegistry, hostname: string)
      returns (first: FileMappingClient, second: FileMappingClient)
    requires registry.Valid()
    modifies registry
    ensures registry.Valid()
    ensures first == second && first.host == hostname
    ensures registry.instances.Keys == old(registry.instances.Keys) + {hostname}
  {
    first := registry.GetClient(hostname);
    second := registry.GetClient(hostname);
  }
}
