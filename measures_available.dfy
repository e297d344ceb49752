/** measures_available: the list of measures versions offered by the ASTRON
    server, with the FTP_TLS session abstracted to what it produced. */
module Available {
  import opened Errors
  import opened Strings

  /** What the FTP_TLS session ended with: the `nlst` name list, a
      socket.gaierror, or any other exception, each with its text. */
  datatype Listing =
    | Names(names: seq<string>)
    | AddressError(detail: string)
    | OtherError(detail: string)

  const RemotePrefix := "Unable to retrieve list of available measures versions : "
  const UnexpectedPrefix := "Unexpected exception while getting list of available measures versions : "

  /** A server name the listing keeps: non-empty and not ending in ".dat". */
  predicate Listed(name: string) {
    |name| > 0 && !EndsWith(name, ".dat")
  }

  /** The list comprehension over the server names. */
  function KeepListed(names: seq<string>): (r: seq<string>)
    ensures |r| <= |names|
    ensures forall i :: 0 <= i < |r| ==> Listed(r[i])
  {
    if names == [] then []
    else (if Listed(names[0]) then [names[0]] else []) + KeepListed(names[1..])
  }

  /** The filter keeps exactly the listed names ... */
  lemma {:induction false} KeepListedMembers(names: seq<string>, x: string)
    ensures x in KeepListed(names) <==> x in names && Listed(x)
  {
    if names != [] {
      KeepListedMembers(names[1..], x);
      assert names == [names[0]] + names[1..];
    }
  }

  /** ... each as often as the server lists it ... */
  lemma {:induction false} KeepListedCounts(names: seq<string>, x: string)
    ensures multiset(KeepListed(names))[x] == if Listed(x) then multiset(names)[x] else 0
  {
    if names != [] {
      KeepListedCounts(names[1..], x);
      assert names == [names[0]] + names[1..];
    }
  }

  /** ... and in the server's order: filtering distributes over concatenation. */
  lemma {:induction false} KeepListedAppend(a: seq<string>, b: seq<string>)
    ensures KeepListed(a + b) == KeepListed(a) + KeepListed(b)
  {
    if a != [] {
      KeepListedAppend(a[1..], b);
      assert (a + b)[0] == a[0] && (a + b)[1..] == a[1..] + b;
    } else {
      assert a + b == b;
    }
  }

  /** A listing that needs no filtering comes back as it is, unsorted. */
  lemma {:induction false} KeepListedIdentity(names: seq<string>)
    requires forall i :: 0 <= i < |names| ==> Listed(names[i])
    ensures KeepListed(names) == names
  {
    if names != [] {
      KeepListedIdentity(names[1..]);
      assert names == [names[0]] + names[1..];
    }
  }

  /** measures_available(): the filtered names, or the mapped exception. */
  function MeasuresAvailable(listing: Listing): (r: Result<seq<string>>)
    ensures r.Ok? <==> listing.Names?
    ensures listing.Names? ==> r == Ok(KeepListed(listing.names))
    ensures r.Ok? ==> forall i :: 0 <= i < |r.value| ==> Listed(r.value[i])
    ensures listing.AddressError? ==> r == Err(RemoteError(RemotePrefix + listing.detail))
    ensures listing.OtherError? ==> r == Err(Exception(UnexpectedPrefix + listing.detail))
  {
    match listing
    case Names(names) => Ok(KeepListed(names))
    case AddressError(detail) => Err(RemoteError(RemotePrefix + detail))
    case OtherError(detail) => Err(Exception(UnexpectedPrefix + detail))
  }

  /** A ".dat" file and an empty name are dropped, the rest keep their order. */
  lemma ListingExample()
    ensures MeasuresAvailable(Names(["b.ztar", "", "x.dat", "a.ztar"])) == Ok(["b.ztar", "a.ztar"])
  {
    assert !Listed("x.dat") by { assert "x.dat"[1..] == ".dat"; }
    assert Listed("b.ztar") by { assert "b.ztar"[2..] != ".dat"; }
    assert Listed("a.ztar") by { assert "a.ztar"[2..] != ".dat"; }
    var ns := ["b.ztar", "", "x.dat", "a.ztar"];
    assert KeepListed(ns[3..]) == ["a.ztar"] by { assert ns[3..][1..] == []; }
    assert KeepListed(ns[2..]) == ["a.ztar"] by { assert ns[2..][1..] == ns[3..]; }
    assert KeepListed(ns[1..]) == ["a.ztar"] by { assert ns[1..][1..] == ns[2..]; }
    assert KeepListed(ns) == ["b.ztar"] + KeepListed(ns[1..]);
    assert KeepListed(ns) == ["b.ztar", "a.ztar"];
    assert MeasuresAvailable(Names(ns)) == Ok(KeepListed(ns));
  }
}
