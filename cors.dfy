/** The CORS allow-list: matching a hostname against literal and
    dot-prefixed wildcard entries, reading the list from its comma-separated
    configuration string, and the headers granted to an allowed origin. */
module Cors {
  import opened Strings
  import opened Js

  const EmptyEntryError := "Empty entry in CORS domain whitelist is not allowed"

  /** What `new URL(url)` throws on a string it cannot parse. */
  const InvalidUrl := "Invalid URL"

  /** `hostnameMatches(hostname, whitelistEntry)`: an empty entry throws; an
      entry starting with '.' is a wildcard; any other entry is literal. */
  function HostnameMatches(hostname: string, entry: string): (r: Completion<bool>)
    ensures r.Thrown? <==> entry == ""
    ensures r.Thrown? ==> r.error == EmptyEntryError
  {
    if |entry| <= 0 then Thrown(EmptyEntryError)
    else if entry[0] == '.' then Normal(EndsWith(hostname, entry) || hostname == entry[1..])
    else Normal(hostname == entry)
  }

  /** `hostname` is the domain `d` itself or a name inside it: its last labels are those of `d`. */
  predicate InDomain(hostname: string, d: string) {
    || hostname == d
    || (|hostname| > |d| && hostname[|hostname| - |d| - 1] == '.' && hostname[|hostname| - |d|..] == d)
  }

  /** An entry other than the empty one that lets `hostname` through. */
  predicate Allows(hostname: string, entry: string) {
    HostnameMatches(hostname, entry) == Normal(true)
  }

  /** A literal entry lets through exactly the hostname equal to it. */
  lemma LiteralEntry(hostname: string, entry: string)
    requires entry != "" && entry[0] != '.'
    ensures Allows(hostname, entry) <==> hostname == entry
    ensures HostnameMatches(hostname, entry).Normal?
  {
  }

  /** The wildcard entry ".d" lets through exactly the names in the domain `d`. */
  lemma WildcardEntry(hostname: string, d: string)
    ensures Allows(hostname, "." + d) <==> InDomain(hostname, d)
    ensures HostnameMatches(hostname, "." + d).Normal?
  {
    var e := "." + d;
    assert e[1..] == d;
    if |hostname| > |d| {
      var n := |hostname| - |d| - 1;
      if EndsWith(hostname, e) {
        assert hostname[n..] == e;
        assert hostname[n] == e[0];
        assert hostname[n + 1..] == hostname[n..][1..];
      }
      if hostname[n] == '.' && hostname[n + 1..] == d {
        assert hostname[n..] == [hostname[n]] + hostname[n + 1..];
      }
    }
  }

  /** A wildcard entry never lets through a hostname shorter than its domain (a superdomain). */
  lemma WildcardRejectsShorter(hostname: string, d: string)
    requires |hostname| < |d|
    ensures HostnameMatches(hostname, "." + d) == Normal(false)
  {
    WildcardEntry(hostname, d);
  }

  /** A wildcard entry never lets through a name that ends in the domain without a dot before it. */
  lemma WildcardRejectsDotlessSuffix(x: string, d: string)
    requires x != "" && x[|x| - 1] != '.'
    ensures HostnameMatches(x + d, "." + d) == Normal(false)
  {
    var h := x + d;
    WildcardEntry(h, d);
    assert h[|h| - |d| - 1] == x[|x| - 1];
  }

  /** The literal cases from the tests. */
  lemma LiteralExamples()
    ensures Allows("localhost", "localhost")
    ensures !Allows("test.example.com", "example.com")
    ensures !Allows("example.com", "test.example.com")
    ensures !Allows("foo-example.com", "example.com")
    ensures !Allows("192.168.0.10", "192.168.0.1")
  {
  }

  /** The wildcard cases from the tests that match: the apex and nested subdomains. */
  lemma WildcardAcceptExamples()
    ensures Allows("example.com", ".example.com")
    ensures Allows("sub.example.com", ".example.com")
    ensures Allows("sub.test.example.com", ".example.com")
  {
    assert "." + "example.com" == ".example.com";
    WildcardEntry("sub.test.example.com", "example.com");
    WildcardEntry("sub.example.com", "example.com");
  }

  /** The wildcard cases from the tests that do not match: superdomains. */
  lemma WildcardRejectExamples()
    ensures !Allows("localhost", ".example.localhost")
    ensures !Allows("example.com", ".test.example.com")
  {
    assert "." + "example.localhost" == ".example.localhost";
    WildcardRejectsShorter("localhost", "example.localhost");
    assert "." + "test.example.com" == ".test.example.com";
    WildcardRejectsShorter("example.com", "test.example.com");
  }

  /** The wildcard case from the tests that does not match: a dot-less look-alike. */
  lemma WildcardLookAlikeExample()
    ensures !Allows("foo-example.com", ".example.com")
  {
    assert "." + "example.com" == ".example.com";
    WildcardRejectsDotlessSuffix("foo-", "example.com");
    assert "foo-" + "example.com" == "foo-example.com";
  }

  /** The wildcard cases from the tests whose hostname shares only a prefix, or nothing, with the domain. */
  lemma WildcardForeignExamples()
    ensures !Allows("foo.com", ".example.com")
    ensures !Allows("example.com.au", ".example.com")
    ensures !Allows("foo.example.com.au", ".example.com")
  {
    var h := "example.com.au";
    assert h[|h| - 12..][11] != ".example.com"[11];
    var h' := "foo.example.com.au";
    assert h'[|h'| - 12..][11] != ".example.com"[11];
  }

  /** `whitelist.some((entry) => hostnameMatches(hostname, entry))`: entries are
      tried in order, the first match ends the search, an empty entry reached
      before any match throws. */
  function AnyAllows(hostname: string, whitelist: seq<string>): (r: Completion<bool>)
    ensures whitelist == [] ==> r == Normal(false)
    ensures r.Thrown? ==> r.error == EmptyEntryError && "" in whitelist
  {
    if |whitelist| == 0 then Normal(false)
    else
      match HostnameMatches(hostname, whitelist[0])
      case Thrown(e) => Thrown(e)
      case Normal(b) => if b then Normal(true) else AnyAllows(hostname, whitelist[1..])
  }

  /** An empty entry at index `i`, with no entry before it letting `hostname` through. */
  predicate ReachesEmpty(hostname: string, whitelist: seq<string>, i: int) {
    && 0 <= i < |whitelist| && whitelist[i] == ""
    && forall j :: 0 <= j < i ==> !Allows(hostname, whitelist[j])
  }

  /** An entry at index `i` that lets `hostname` through, with no empty entry before it. */
  predicate ReachesMatch(hostname: string, whitelist: seq<string>, i: int) {
    && 0 <= i < |whitelist| && Allows(hostname, whitelist[i])
    && forall j :: 0 <= j < i ==> whitelist[j] != ""
  }

  /** `some` succeeds iff a matching entry comes before any empty one, and throws iff an empty entry comes first. */
  lemma {:induction false} AnyAllowsSpec(hostname: string, whitelist: seq<string>)
    ensures AnyAllows(hostname, whitelist) == Normal(true) <==> exists i :: ReachesMatch(hostname, whitelist, i)
    ensures AnyAllows(hostname, whitelist).Thrown? <==> exists i :: ReachesEmpty(hostname, whitelist, i)
    ensures AnyAllows(hostname, whitelist).Thrown? ==> AnyAllows(hostname, whitelist).error == EmptyEntryError
    decreases |whitelist|
  {
    if |whitelist| > 0 {
      var w := whitelist;
      var t := w[1..];
      AnyAllowsSpec(hostname, t);
      if (exists i :: ReachesMatch(hostname, t, i)) && w[0] != "" {
        var i :| ReachesMatch(hostname, t, i);
        assert ReachesMatch(hostname, w, i + 1);
      }
      if (exists i :: ReachesEmpty(hostname, t, i)) && !Allows(hostname, w[0]) {
        var i :| ReachesEmpty(hostname, t, i);
        assert ReachesEmpty(hostname, w, i + 1);
      }
      if exists i :: ReachesMatch(hostname, w, i) {
        var i :| ReachesMatch(hostname, w, i);
        if i > 0 && !Allows(hostname, w[0]) {
          assert ReachesMatch(hostname, t, i - 1);
        }
      }
      if exists i :: ReachesEmpty(hostname, w, i) {
        var i :| ReachesEmpty(hostname, w, i);
        if i > 0 {
          assert ReachesEmpty(hostname, t, i - 1);
        }
      }
      if w[0] == "" {
        assert ReachesEmpty(hostname, w, 0);
      } else if Allows(hostname, w[0]) {
        assert ReachesMatch(hostname, w, 0);
      }
    }
  }

  /** With no empty entry, `some` never throws and is true iff some entry lets `hostname` through. */
  lemma AnyAllowsNoEmptyEntry(hostname: string, whitelist: seq<string>)
    requires forall i :: 0 <= i < |whitelist| ==> whitelist[i] != ""
    ensures AnyAllows(hostname, whitelist) ==
              Normal(exists i :: 0 <= i < |whitelist| && Allows(hostname, whitelist[i]))
  {
    AnyAllowsSpec(hostname, whitelist);
    if exists i :: 0 <= i < |whitelist| && Allows(hostname, whitelist[i]) {
      var i :| 0 <= i < |whitelist| && Allows(hostname, whitelist[i]);
      assert ReachesMatch(hostname, whitelist, i);
    }
    assert !exists i :: ReachesEmpty(hostname, whitelist, i);
  }

  /** `checkHostname(url, whitelist)`. `hostnameOf(url)` is what `new URL(url).hostname`
      gives, `None` when the URL constructor throws. */
  function CheckHostname(url: string, whitelist: seq<string>, hostnameOf: string -> Option<string>): (r: Completion<bool>)
    ensures hostnameOf(url).None? ==> r == Thrown(InvalidUrl)
    ensures hostnameOf(url).Some? && whitelist == [] ==> r == Normal(false)
    ensures hostnameOf(url).Some? ==>
              && (r == Normal(true) <==> exists i :: ReachesMatch(hostnameOf(url).value, whitelist, i))
              && (r.Thrown? <==> exists i :: ReachesEmpty(hostnameOf(url).value, whitelist, i))
              && (r.Thrown? ==> r.error == EmptyEntryError)
  {
    match hostnameOf(url)
    case None => Thrown(InvalidUrl)
    case Some(hostname) =>
      AnyAllowsSpec(hostname, whitelist);
      AnyAllows(hostname, whitelist)
  }

  /** `parseCorsWhitelist(whitelistStr)`: the non-empty comma-separated pieces, in order. */
  function ParseCorsWhitelist(s: string): (r: seq<string>)
    ensures forall i :: 0 <= i < |r| ==> r[i] != "" && ',' !in r[i]
    ensures forall x :: x in r <==> x in Split(s, ',') && x != ""
  {
    SplitPiecesLackSeparator(s, ',');
    NonEmptyPieces(Split(s, ','))
  }

  /** `pieces.filter((entry) => entry.length > 0)`. */
  function NonEmptyPieces(pieces: seq<string>): (r: seq<string>)
    ensures |r| <= |pieces|
    ensures forall i :: 0 <= i < |r| ==> r[i] != ""
    ensures forall x :: x in r <==> x in pieces && x != ""
  {
    if |pieces| == 0 then []
    else
      assert pieces == [pieces[0]] + pieces[1..];
      (if pieces[0] != "" then [pieces[0]] else []) + NonEmptyPieces(pieces[1..])
  }

  /** Filtering distributes over concatenation, so order is kept. */
  lemma {:induction false} NonEmptyPiecesAppend(a: seq<string>, b: seq<string>)
    ensures NonEmptyPieces(a + b) == NonEmptyPieces(a) + NonEmptyPieces(b)
  {
    if |a| > 0 {
      assert (a + b)[0] == a[0] && (a + b)[1..] == a[1..] + b;
      NonEmptyPiecesAppend(a[1..], b);
    } else {
      assert a + b == b;
    }
  }

  /** Every parsed entry is non-empty and holds no comma, so matching against it never throws. */
  lemma ParsedEntriesWellFormed(s: string)
    ensures forall i :: 0 <= i < |ParseCorsWhitelist(s)| ==>
              ParseCorsWhitelist(s)[i] != "" && ',' !in ParseCorsWhitelist(s)[i]
    ensures forall h :: AnyAllows(h, ParseCorsWhitelist(s)).Normal?
  {
    var ps := Split(s, ',');
    SplitPiecesLackSeparator(s, ',');
    var r := ParseCorsWhitelist(s);
    forall i | 0 <= i < |r| ensures ',' !in r[i] {
      assert r[i] in ps;
    }
    forall h ensures AnyAllows(h, r).Normal? {
      AnyAllowsNoEmptyEntry(h, r);
    }
  }

  /** A trailing comma adds nothing. */
  lemma TrailingCommaIgnored(s: string)
    ensures ParseCorsWhitelist(s + ",") == ParseCorsWhitelist(s)
  {
    SplitAppendSeparator(s, ',');
    NonEmptyPiecesAppend(Split(s, ','), [""]);
    assert NonEmptyPieces([""]) == [];
  }

  /** Writing a parsed list back with commas and parsing it again gives the same list. */
  lemma ParseJoinRoundTrip(s: string)
    ensures ParseCorsWhitelist(Join(ParseCorsWhitelist(s), ",")) == ParseCorsWhitelist(s)
  {
    var r := ParseCorsWhitelist(s);
    ParsedEntriesWellFormed(s);
    if |r| == 0 {
      assert Split("", ',') == [""];
    } else {
      assert "," == [','];
      JoinSplit(r, ',');
      NonEmptyPiecesKeeps(r);
    }
  }

  /** A list with no empty piece passes the filter unchanged. */
  lemma {:induction false} NonEmptyPiecesKeeps(pieces: seq<string>)
    requires forall i :: 0 <= i < |pieces| ==> pieces[i] != ""
    ensures NonEmptyPieces(pieces) == pieces
  {
    if |pieces| > 0 {
      NonEmptyPiecesKeeps(pieces[1..]);
      assert [pieces[0]] + pieces[1..] == pieces;
    }
  }

  /** The two-entry configuration string from the tests. */
  lemma ParseTwoEntries()
    ensures ParseCorsWhitelist("localhost,.example.com") == ["localhost", ".example.com"]
  {
    var ms := ["localhost", ".example.com"];
    assert Join(ms, ",") == "localhost,.example.com" by {
      assert ms[1..] == [".example.com"];
    }
    assert ',' !in "localhost" && ',' !in ".example.com";
    assert "," == [','];
    JoinSplit(ms, ',');
    NonEmptyPiecesKeeps(ms);
  }

  /** The configuration string from the tests with a trailing comma. */
  lemma ParseTrailingComma()
    ensures ParseCorsWhitelist("localhost,.example.com,") == ["localhost", ".example.com"]
  {
    var t := "localhost,.example.com";
    ParseTwoEntries();
    TrailingCommaIgnored(t);
    assert t + "," == "localhost,.example.com,";
  }

  /** The single-entry configuration string from the tests. */
  lemma ParseSingleEntry()
    ensures ParseCorsWhitelist("localhost") == ["localhost"]
  {
    SplitNoSeparator("localhost", ',');
    NonEmptyPiecesKeeps(["localhost"]);
  }

  /** The headers granted to an allowed origin. */
  datatype CorsHeaders = CorsHeaders(origin: string, methods: string, headers: string)

  const AllowedMethods := "POST, GET, OPTIONS"
  const AllowedHeaders := "Content-Type, Origin, Accept"

  /** `corsCheck(url, whitelist)`: headers for an allowed URL, `None` (`undefined`) otherwise. */
  function CorsCheck(url: string, whitelist: seq<string>, hostnameOf: string -> Option<string>): (r: Completion<Option<CorsHeaders>>)
    ensures r.Thrown? <==> CheckHostname(url, whitelist, hostnameOf).Thrown?
    ensures r == Normal(None) <==> CheckHostname(url, whitelist, hostnameOf) == Normal(false)
    ensures r.Normal? && r.value.Some? ==> r.value.value == CorsHeaders(url, AllowedMethods, AllowedHeaders)
  {
    match CheckHostname(url, whitelist, hostnameOf)
    case Thrown(e) => Thrown(e)
    case Normal(allowed) =>
      if allowed then Normal(Some(CorsHeaders(url, AllowedMethods, AllowedHeaders))) else Normal(None)
  }

  /** With a list read from configuration and a parseable URL, the check grants the
      headers exactly when some configured entry lets the URL's hostname through. */
  lemma CorsCheckConfigured(url: string, config: string, hostnameOf: string -> Option<string>)
    requires hostnameOf(url).Some?
    ensures var wl := ParseCorsWhitelist(config);
            var h := hostnameOf(url).value;
              CorsCheck(url, wl, hostnameOf) ==
                if exists i :: 0 <= i < |wl| && Allows(h, wl[i])
                then Normal(Some(CorsHeaders(url, AllowedMethods, AllowedHeaders)))
                else Normal(None)
  {
    ParsedEntriesWellFormed(config);
    AnyAllowsNoEmptyEntry(hostnameOf(url).value, ParseCorsWhitelist(config));
  }
}
