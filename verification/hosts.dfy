/** The cluster host list: `host[:port]` entries, given as one comma-separated
    string or as an array, parsed into `(host, port)` records. */
module Hosts {
  import opened Wrappers
  import opened Text

  datatype Host = Host(host: string, port: nat)

  /** The two shapes the `hosts` argument may take. */
  datatype HostsInput = HostString(text: string) | HostArray(entries: seq<string>)

  /** The constructor's default for the port of entries that do not name
      one, used when no port argument is given. */
  const DefaultPort: nat := 2379

  /** The entries of the argument: a string is exploded on `,` into one more
      entry than it has commas, none of them holding a comma. */
  function Entries(input: HostsInput): (es: seq<string>)
    ensures input.HostString? ==> |es| == multiset(input.text)[','] + 1 && Join(es, ',') == input.text
    ensures input.HostString? ==> forall i :: 0 <= i < |es| ==> ',' !in es[i]
    ensures input.HostArray? ==> es == input.entries
  {
    match input
    case HostString(text) =>
      JoinSplit(text, ',');
      Split(text, ',')
    case HostArray(entries) => entries
  }

  /** One entry: trimmed, split at its first colon; the host is the trimmed
      first part, the port the second part when it is numeric and the
      default port otherwise. */
  function ParseEntry(entry: string, defaultPort: nat): (h: Host)
    ensures ':' !in h.host
    ensures Trim(h.host) == h.host
  {
    var (head, rest) := SplitFirst(Trim(entry), ':');
    var port := match rest
      case Some(p) => if IsDigits(p) then DigitsValue(p) else defaultPort
      case None => defaultPort;
    TrimNoNewChars(head, ':');
    TrimIdempotent(head);
    Host(Trim(head), port)
  }

  /** An entry whose trimmed text is `name:port`, `name` free of colons:
      everything after the first colon is the port text. */
  lemma ParseEntryWithPort(entry: string, name: string, port: string, defaultPort: nat)
    requires Trim(entry) == name + ":" + port
    requires ':' !in name
    ensures ParseEntry(entry, defaultPort).host == Trim(name)
    ensures IsDigits(port) ==> ParseEntry(entry, defaultPort).port == DigitsValue(port)
    ensures !IsDigits(port) ==> ParseEntry(entry, defaultPort).port == defaultPort
  {
    SplitFirstAt(name, ':', port);
  }

  /** An entry without a colon gets the default port. */
  lemma ParseEntryWithoutPort(entry: string, defaultPort: nat)
    requires ':' !in Trim(entry)
    ensures ParseEntry(entry, defaultPort) == Host(Trim(entry), defaultPort)
  {
    SplitFirstNone(Trim(entry), ':');
  }

  /** The `host:port` text of a record. */
  function Format(h: Host): string {
    h.host + ":" + NatToString(h.port)
  }

  /** A host name as an entry can carry it: no colon, no comma, no white
      space at either end. */
  predicate WellFormedName(name: string) {
    ':' !in name && ',' !in name && Trim(name) == name
  }

  /** Formatting a record and parsing it back gives the record. */
  lemma ParseFormat(h: Host, defaultPort: nat)
    requires WellFormedName(h.host)
    ensures ParseEntry(Format(h), defaultPort) == h
  {
    var digits := NatToString(h.port);
    var e := Format(h);
    assert e[|e| - 1] == digits[|digits| - 1];
    if |h.host| > 0 {
      assert e[0] == h.host[0];
    }
    TrimClean(e);
    ParseEntryWithPort(e, h.host, digits, defaultPort);
    DigitsValueOfNatToString(h.port);
  }

  /** The records an argument describes, one per entry, in entry order: one
      more than the commas of a string, one per element of an array; every
      host name trimmed and free of colons. */
  function ParseHosts(input: HostsInput, defaultPort: nat): (hs: seq<Host>)
    ensures |hs| == |Entries(input)|
    ensures input.HostString? ==> |hs| == multiset(input.text)[','] + 1
    ensures input.HostArray? ==> |hs| == |input.entries|
    ensures forall i :: 0 <= i < |hs| ==> ':' !in hs[i].host && Trim(hs[i].host) == hs[i].host
    ensures forall i :: 0 <= i < |hs| ==> hs[i] == ParseEntry(Entries(input)[i], defaultPort)
  {
    var es := Entries(input);
    seq(|es|, i requires 0 <= i < |es| => ParseEntry(es[i], defaultPort))
  }

  /** `setHosts`: the parsed records are appended after the hosts already
      configured, which stay as they were. */
  function AddHosts(existing: seq<Host>, input: HostsInput, defaultPort: nat): (hs: seq<Host>)
    ensures |hs| == |existing| + |Entries(input)|
    ensures hs[..|existing|] == existing
    ensures forall i :: 0 <= i < |Entries(input)| ==> hs[|existing| + i] == ParseEntry(Entries(input)[i], defaultPort)
  {
    existing + ParseHosts(input, defaultPort)
  }

  /** The comma-separated text of a list of records. */
  function FormatList(hs: seq<Host>): string {
    Join(seq(|hs|, i requires 0 <= i < |hs| => Format(hs[i])), ',')
  }

  /** Writing a non-empty host list as a comma-separated string and parsing
      it back gives the same list. */
  lemma ParseFormatList(hs: seq<Host>, defaultPort: nat)
    requires |hs| > 0
    requires forall i :: 0 <= i < |hs| ==> WellFormedName(hs[i].host)
    ensures ParseHosts(HostString(FormatList(hs)), defaultPort) == hs
  {
    var texts := seq(|hs|, i requires 0 <= i < |hs| => Format(hs[i]));
    forall i | 0 <= i < |texts|
      ensures ',' !in texts[i]
    {
      assert texts[i] == hs[i].host + [':'] + NatToString(hs[i].port);
      assert forall k :: 0 <= k < |NatToString(hs[i].port)| ==> IsDigit(NatToString(hs[i].port)[k]);
    }
    SplitJoin(texts, ',');
    forall i | 0 <= i < |hs|
      ensures ParseEntry(texts[i], defaultPort) == hs[i]
    {
      ParseFormat(hs[i], defaultPort);
    }
  }
}
