/**
  Two helpers of the HTTP layer (web/middlewares/middlewares.go): splitting
  a request's host into the instance domain and the application slug,
  according to how the stack addresses applications (nested or flat
  subdomains), and composing middlewares around a handler.
*/
module Middlewares {

  import opened Strings

  /** The subdomains setting of the configuration, given as a parameter. */
  datatype SubdomainsMode = NestedSubdomains | FlatSubdomains

  /** The three results of SplitHost. */
  datatype HostParts = HostParts(instanceHost: string, appSlug: string, siblings: string)

  /** The host the nested mode never splits, the development address. */
  const DevHost := "cozy.tools:8080"

  /** The host, split at its first dot, asks for an application. */
  predicate NamesApp(host: string, mode: SubdomainsMode) {
    && '.' in host
    && match mode
       case NestedSubdomains => host != DevHost
       case FlatSubdomains => '-' in SplitFirst(host, '.')[0]
  }

  /**
    SplitHost: with nested subdomains, the first label is the application
    and the rest the instance; with flat subdomains, the first label is
    "instance-app". A host that names no application is returned whole;
    one that does gets the wildcard of its parent domain as siblings.
  */
  function SplitHost(host: string, mode: SubdomainsMode): (r: HostParts)
    ensures !NamesApp(host, mode) ==> r == HostParts(host, "", "")
    ensures NamesApp(host, mode) ==> HasPrefix(r.siblings, "*.") && '.' !in r.appSlug
    ensures NamesApp(host, mode) && mode == FlatSubdomains ==> '-' !in r.instanceHost[..FirstIndex(r.instanceHost, '.')]
  {
    var parts := SplitFirst(host, '.');
    if |parts| == 2 then
      if mode == NestedSubdomains then
        if host == DevHost then HostParts(host, "", "")
        else HostParts(parts[1], parts[0], "*." + parts[1])
      else
        var subs := SplitFirst(parts[0], '-');
        if |subs| == 2 then
          var inst := subs[0] + "." + parts[1];
          assert inst[|subs[0]|] == '.';
          assert forall j :: 0 <= j < |subs[0]| ==> inst[j] == subs[0][j];
          assert FirstIndex(inst, '.') == |subs[0]|;
          assert inst[..|subs[0]|] == subs[0];
          assert '.' !in subs[1] by {
            assert forall j :: 0 <= j < |subs[1]| ==> subs[1][j] == parts[0][|subs[0]| + 1 + j];
          }
          HostParts(inst, subs[1], "*." + parts[1])
        else HostParts(host, "", "")
    else HostParts(parts[0], "", "")
  }

  /** The first occurrence of a character not in the prefix is the one after it. */
  lemma SplitAfter(prefix: string, c: char, rest: string)
    requires c !in prefix
    ensures SplitFirst(prefix + [c] + rest, c) == [prefix, rest]
  {
    var s := prefix + [c] + rest;
    assert s[|prefix|] == c;
    assert forall j :: 0 <= j < |prefix| ==> s[j] == prefix[j];
    assert FirstIndex(s, c) == |prefix|;
    assert s[..|prefix|] == prefix;
    assert s[|prefix| + 1..] == rest;
  }

  /** Nested mode gives back the application and the instance a host was made of. */
  lemma SplitHostNested(app: string, instance: string)
    requires '.' !in app && app + "." + instance != DevHost
    ensures SplitHost(app + "." + instance, NestedSubdomains) == HostParts(instance, app, "*." + instance)
  {
    SplitAfter(app, '.', instance);
  }

  /** Flat mode gives back the instance label, the application and the domain a host was made of. */
  lemma SplitHostFlat(user: string, app: string, domain: string)
    requires '.' !in user && '-' !in user && '.' !in app
    ensures SplitHost(user + "-" + app + "." + domain, FlatSubdomains) ==
      HostParts(user + "." + domain, app, "*." + domain)
  {
    var first := user + "-" + app;
    assert '.' !in first by {
      assert forall j :: 0 <= j < |first| ==> first[j] == (if j < |user| then user[j] else if j == |user| then '-' else app[j - |user| - 1]);
    }
    SplitAfter(first, '.', domain);
    SplitAfter(user, '-', app);
  }

  /** TestSplitHost, first case: a host without a dot. */
  lemma SplitHostLocalhost()
    ensures SplitHost("localhost", FlatSubdomains) == HostParts("localhost", "", "")
  {
    assert !NamesApp("localhost", FlatSubdomains) by {
      assert forall j :: 0 <= j < |"localhost"| ==> "localhost"[j] != '.';
    }
  }

  /** TestSplitHost, nested subdomains: "calendar.joe.example.net". */
  lemma SplitHostNestedExample()
    ensures SplitHost("calendar" + "." + "joe.example.net", NestedSubdomains)
      == HostParts("joe.example.net", "calendar", "*." + "joe.example.net")
  {
    NoDot("calendar");
    assert |"calendar" + "." + "joe.example.net"| != |DevHost|;
    SplitHostNested("calendar", "joe.example.net");
  }

  /** TestSplitHost, flat subdomains with an application: "joe-calendar.example.net". */
  lemma SplitHostFlatExample()
    ensures SplitHost("joe" + "-" + "calendar" + "." + "example.net", FlatSubdomains)
      == HostParts("joe" + "." + "example.net", "calendar", "*." + "example.net")
  {
    NoDot("calendar");
    assert '.' !in "joe" && '-' !in "joe";
    SplitHostFlat("joe", "calendar", "example.net");
  }

  lemma NoDot(app: string)
    requires app == "calendar"
    ensures '.' !in app
  {
    assert forall j :: 0 <= j < |app| ==> app[j] != '.';
  }

  /** TestSplitHost, flat subdomains without an application. */
  lemma SplitHostFlatInstance()
    ensures SplitHost("joe.example.net", FlatSubdomains) == HostParts("joe.example.net", "", "")
  {
    assert "joe.example.net" == "joe" + "." + "example.net";
    SplitAfter("joe", '.', "example.net");
    assert '-' !in "joe";
  }

  /** The middlewares applied from the last to the first, the last one closest to the handler. */
  function ApplyAll<H>(mws: seq<H -> H>, handler: H): H
    decreases |mws|
  {
    if |mws| == 0 then handler
    else ApplyAll(mws[..|mws| - 1], mws[|mws| - 1](handler))
  }

  /** The first middleware is the outermost: mws[0](mws[1](...mws[n-1](handler))). */
  lemma {:induction false} ApplyAllOutermost<H>(mws: seq<H -> H>, handler: H)
    requires |mws| > 0
    ensures ApplyAll(mws, handler) == mws[0](ApplyAll(mws[1..], handler))
    decreases |mws|
  {
    if |mws| > 1 {
      var n := |mws|;
      ApplyAllOutermost(mws[..n - 1], mws[n - 1](handler));
      assert mws[..n - 1][1..] == mws[1..][..n - 2];
    }
  }

  /** Composing a composition: a list of middlewares around the composition of another. */
  lemma {:induction false} ApplyAllAppend<H>(a: seq<H -> H>, b: seq<H -> H>, handler: H)
    ensures ApplyAll(a + b, handler) == ApplyAll(a, ApplyAll(b, handler))
    decreases |b|
  {
    if |b| > 0 {
      var n := |b|;
      assert (a + b)[..|a + b| - 1] == a + b[..n - 1];
      ApplyAllAppend(a, b[..n - 1], b[n - 1](handler));
    } else {
      assert a + b == a;
    }
  }

  /** Compose: the loop from the last middleware to the first. */
  method Compose<H>(handler: H, mws: seq<H -> H>) returns (r: H)
    ensures r == ApplyAll(mws, handler)
  {
    r := handler;
    var i := |mws|;
    while i > 0
      invariant 0 <= i <= |mws|
      invariant r == ApplyAll(mws[i..], handler)
    {
      i := i - 1;
      ApplyAllOutermost(mws[i..], handler);
      assert mws[i..][1..] == mws[i + 1..];
      r := mws[i](r);
    }
  }
}
