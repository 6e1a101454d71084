/** The comparison of two recorded requests. Bytes are written as the Latin-1 characters they are. */
module Wire {
  import opened Digests
  import opened Patterns
  import opened Text
  import opened Wrappers

  datatype Header = Header(name: string, value: string)

  datatype Request = Request(line: string, headers: seq<Header>, body: string)

  // Every value sent under a name, in order.
  function Values(headers: seq<Header>, name: string): seq<string> {
    if headers == [] then []
    else (if headers[0].name == name then [headers[0].value] else []) + Values(headers[1..], name)
  }

  function Names(headers: seq<Header>): (names: seq<string>)
    ensures |names| == |headers|
    ensures forall i :: 0 <= i < |headers| ==> names[i] == headers[i].name
  {
    seq(|headers|, i requires 0 <= i < |headers| => headers[i].name)
  }

  function NameSet(headers: seq<Header>): set<string> {
    set h | h in headers :: h.name
  }

  // The names that are in `keep`, in order.
  function Kept(headers: seq<Header>, keep: set<string>): seq<string> {
    if headers == [] then []
    else (if headers[0].name in keep then [headers[0].name] else []) + Kept(headers[1..], keep)
  }

  function HeaderOf(line: string): Header {
    var (name, value) := Partition(line, ":");
    Header(Lower(Strip(name)), Strip(value))
  }

  function HeadersOf(lines: seq<string>): seq<Header> {
    if lines == [] then []
    else HeadersOf(lines[..|lines| - 1]) +
         (if Contains(lines[|lines| - 1], ":") then [HeaderOf(lines[|lines| - 1])] else [])
  }

  function Parsed(raw: string): Request {
    var (head, body) := Partition(raw, "\r\n\r\n");
    var lines := Split(head, "\r\n");
    Request(lines[0], HeadersOf(lines[1..]), body)
  }

  method Parse(raw: string) returns (request: Request)
    ensures request == Parsed(raw)
  {
    var (head, body) := Partition(raw, "\r\n\r\n");
    var lines := Split(head, "\r\n");
    var headers: seq<Header> := [];
    var rest := lines[1..];
    for n := 0 to |rest|
      invariant headers == HeadersOf(rest[..n])
    {
      assert rest[..n + 1][..n] == rest[..n];
      if !Contains(rest[n], ":") {
        continue;
      }
      headers := headers + [HeaderOf(rest[n])];
    }
    assert rest[..|rest|] == rest;
    request := Request(lines[0], headers, body);
  }

  function NormalValue(h: Header): string {
    if h.name == "user-agent" then "<product>"
    else if h.name == "content-type" then
      match FirstBoundary(h.value)
      case None => h.value
      case Some(b) => MaskBoundary(h.value, |b|)
    else if h.name == "authorization" && IsDigest(h.value) then MaskDigest(h.value)
    else h.value
  }

  // As many letters as the boundary has characters.
  function MaskBoundary(value: string, length: nat): string {
    Masked(Boundary, "boundary=" + Letters(length), value)
  }

  function Letters(n: nat): (r: string)
    ensures |r| == n
  {
    seq(n, i => 'b')
  }

  function NormalHeaders(headers: seq<Header>): (r: seq<Header>)
    ensures |r| == |headers|
  {
    seq(|headers|, i requires 0 <= i < |headers| => Header(headers[i].name, NormalValue(headers[i])))
  }

  // The boundary of the last header that has one.
  function BoundaryIn(headers: seq<Header>): Option<string> {
    if headers == [] then None
    else
      var h := headers[|headers| - 1];
      if h.name == "content-type" && FirstBoundary(h.value).Some? then FirstBoundary(h.value)
      else BoundaryIn(headers[..|headers| - 1])
  }

  function NormalBody(boundary: Option<string>, body: string): string {
    match boundary
    case None => body
    case Some(b) => if b == "" then body else Replace(body, b, Letters(|b|))
  }

  function Normal(r: Request): Request {
    Request(r.line, NormalHeaders(r.headers), NormalBody(BoundaryIn(r.headers), r.body))
  }

  lemma NoHeaders()
    ensures NormalHeaders([]) == [] && BoundaryIn([]) == None
  {
  }

  lemma OneMoreHeader(headers: seq<Header>, n: nat)
    requires n < |headers|
    ensures var h := headers[n];
      && NormalHeaders(headers[..n + 1]) == NormalHeaders(headers[..n]) + [Header(h.name, NormalValue(h))]
      && BoundaryIn(headers[..n + 1]) ==
         if h.name == "content-type" && FirstBoundary(h.value).Some? then FirstBoundary(h.value)
         else BoundaryIn(headers[..n])
  {
    hide FirstBoundary, NormalValue;
    assert headers[..n + 1][..n] == headers[..n];
  }

  method Normalize(request: Request) returns (out: Request)
    ensures out == Normal(request)
  {
    hide Masked, FirstBoundary, StartsWith, Contains, Lower, NormalHeaders, BoundaryIn, NormalBody;
    var headers: seq<Header> := [];
    var boundary: Option<string> := None;
    NoHeaders();
    assert request.headers[..0] == [];
    for n := 0 to |request.headers|
      invariant headers == NormalHeaders(request.headers[..n])
      invariant boundary == BoundaryIn(request.headers[..n])
    {
      var h := request.headers[n];
      OneMoreHeader(request.headers, n);
      var value := h.value;
      if h.name == "user-agent" {
        value := "<product>";
      } else if h.name == "content-type" {
        var found := FirstBoundary(value);
        if found.Some? {
          boundary := found;
          value := MaskBoundary(value, |found.value|);
        }
      } else if h.name == "authorization" && IsDigest(value) {
        value := Masked(ClientNonce, "cnonce=\"<nonce>\"", value);
        value := Masked(NonceCount, "nc=<count>", value);
        if Contains(value, "cnonce=") {
          value := Masked(DigestResponse, "response=\"<digest>\"", value);
        }
      }
      headers := headers + [Header(h.name, value)];
    }
    assert request.headers[..|request.headers|] == request.headers;
    out := Request(request.line, headers, NormalBody(boundary, request.body));
  }

  // The names of the headers whose values a rule may touch.
  const TOUCHED := {"user-agent", "content-type", "authorization"}

  // Nothing else is touched: not the line, not the names or their order, not a value under another
  // name, and not the length of the body.
  lemma NormalTouchesLittle(r: Request)
    ensures var n := Normal(r);
      && n.line == r.line && Names(n.headers) == Names(r.headers)
      && (forall i :: 0 <= i < |r.headers| && r.headers[i].name !in TOUCHED ==> n.headers[i] == r.headers[i])
      && |n.body| == |r.body|
      && (BoundaryIn(r.headers) == None ==> n.body == r.body)
  {
    var boundary := BoundaryIn(r.headers);
    if boundary.Some? && boundary.value != "" {
      ReplaceKeepsLength(r.body, boundary.value, Letters(|boundary.value|));
    }
  }

  // What headers look like when they are normalized counts, and nothing else of them.
  lemma AlikeAreNormal(r: Request, q: Request)
    requires r.line == q.line && r.body == q.body && |r.headers| == |q.headers|
    requires forall i :: 0 <= i < |r.headers| ==> r.headers[i].name == q.headers[i].name
    requires forall i :: 0 <= i < |r.headers| ==> NormalValue(r.headers[i]) == NormalValue(q.headers[i])
    requires BoundaryIn(r.headers) == BoundaryIn(q.headers)
    ensures Normal(r) == Normal(q)
  {
    hide NormalValue, BoundaryIn, NormalBody;
    assert NormalHeaders(r.headers) == NormalHeaders(q.headers);
  }

  lemma {:induction false} SameBoundary(a: seq<Header>, b: seq<Header>)
    requires |a| == |b|
    requires forall i :: 0 <= i < |a| ==> a[i] == b[i] || (a[i].name != "content-type" && b[i].name != "content-type")
    ensures BoundaryIn(a) == BoundaryIn(b)
  {
    hide FirstBoundary;
    if a != [] {
      SameBoundary(a[..|a| - 1], b[..|b| - 1]);
    }
  }

  // Two requests that differ in nothing but the products that made them have the same normal form.
  lemma ProductDoesNotMatter(r: Request, q: Request)
    requires r.line == q.line && r.body == q.body && |r.headers| == |q.headers|
    requires forall i :: 0 <= i < |r.headers| ==>
      r.headers[i] == q.headers[i] || r.headers[i].name == q.headers[i].name == "user-agent"
    ensures Normal(r) == Normal(q)
  {
    hide BoundaryIn, Normal, FirstBoundary, IsDigest, MaskDigest;
    SameBoundary(r.headers, q.headers);
    AlikeAreNormal(r, q);
  }

  const DIGEST := "digest "

  // Digest credentials in a header: they begin with the name of the scheme.
  ghost predicate IsAuthorization(h: Header, first: string, fields: seq<Field>) {
    && h == Header("authorization", first + Render(fields)) && IsCredentials(first, fields)
    && |first| >= |DIGEST| && forall i :: 0 <= i < |DIGEST| ==> Lower(first)[i] == DIGEST[i]
  }

  // Two requests that differ in nothing but the client nonce, the count and the response of digest
  // credentials have the same normal form.
  lemma NonceDoesNotMatter(r: Request, q: Request, k: nat, first: string, f: seq<Field>, g: seq<Field>)
    requires r.line == q.line && r.body == q.body && k < |r.headers| == |q.headers|
    requires forall i :: 0 <= i < |r.headers| && i != k ==> r.headers[i] == q.headers[i]
    requires IsAuthorization(r.headers[k], first, f) && IsAuthorization(q.headers[k], first, g)
    requires SameButValues(f, g) && HasNonce(f)
    ensures Normal(r) == Normal(q)
  {
    hide BoundaryIn, Normal, FirstBoundary, MaskDigest, IsDigest, HasNonce, IsCredentials, Render;
    SchemeSeen(r.headers[k], first, f);
    SchemeSeen(q.headers[k], first, g);
    ValuesDoNotMatter(first, f, g);
    SameBoundary(r.headers, q.headers);
    AlikeAreNormal(r, q);
  }

  lemma SchemeSeen(h: Header, first: string, fields: seq<Field>)
    requires IsAuthorization(h, first, fields)
    ensures NormalValue(h) == MaskDigest(first + Render(fields))
  {
    hide MaskDigest, Render, IsCredentials;
    StartsAt(Lower(h.value), DIGEST);
    assert forall i :: 0 <= i < |first| ==> h.value[i] == first[i];
  }

  // Without a client nonce the response stays, and so does everything but the count.
  lemma ResponseIsKept(h: Header, first: string, fields: seq<Field>)
    requires IsAuthorization(h, first, fields) && !HasNonce(fields)
    ensures NormalValue(h) == first + Render(Replaced(NonceCount, fields))
  {
    hide MaskDigest, Render, HasNonce, IsCredentials;
    SchemeSeen(h, first, fields);
    CredentialsAreMasked(first, fields);
  }

  const MULTIPART := "multipart/form-data; "

  // A request with a multipart body, as far as its boundary goes: it is named by the header at `k`.
  ghost predicate IsMultipart(r: Request, k: nat, b: string) {
    && k < |r.headers| && r.headers[k] == Header("content-type", MULTIPART + "boundary=" + b) && IsBoundary(b)
    && forall i :: 0 <= i < |r.headers| && i != k ==> r.headers[i].name != "content-type"
  }

  // Two multipart requests that differ in nothing but their boundaries, of one length, have the same
  // normal form.
  lemma BoundaryDoesNotMatter(r: Request, q: Request, k: nat, a: string, b: string)
    requires IsMultipart(r, k, a) && IsMultipart(q, k, b) && |a| == |b|
    requires r.line == q.line && r.headers[..k] == q.headers[..k] && r.headers[k + 1..] == q.headers[k + 1..]
    requires Split(r.body, a) == Split(q.body, b)
    ensures Normal(r) == Normal(q)
  {
    hide Replace, Split, FirstBoundary, Masked, IsDigest, MaskDigest, Letters;
    MultipartValue(a);
    MultipartValue(b);
    BoundaryOf(r.headers, k, a);
    BoundaryOf(q.headers, k, b);
    ReplaceIsGlue(r.body, a, Letters(|a|));
    ReplaceIsGlue(q.body, b, Letters(|b|));
    assert |r.headers| == k + 1 + |r.headers[k + 1..]| == |q.headers|;
    forall i | 0 <= i < |r.headers|
      ensures NormalHeaders(r.headers)[i] == NormalHeaders(q.headers)[i]
    {
      assert i < k ==> r.headers[..k][i] == q.headers[..k][i];
      assert i > k ==> r.headers[k + 1..][i - k - 1] == q.headers[k + 1..][i - k - 1];
    }
    assert NormalHeaders(r.headers) == NormalHeaders(q.headers);
  }

  lemma MultipartValue(b: string)
    requires IsBoundary(b)
    ensures FirstBoundary(MULTIPART + "boundary=" + b) == Some(b)
    ensures MaskBoundary(MULTIPART + "boundary=" + b, |b|) == MULTIPART + ("boundary=" + Letters(|b|))
  {
    hide *;
    NoBoundaryInside();
    BoundaryAfter(MULTIPART, b, ' ', "boundary=" + Letters(|b|));
    MaskedWhole(MULTIPART + "boundary=" + b, |b|);
  }

  lemma MaskedWhole(value: string, length: nat)
    ensures MaskBoundary(value, length) == MaskedAfter(Boundary, "boundary=" + Letters(length), ' ', value)
  {
    hide MaskedAfter, Letters;
  }

  // What stands in the normal form for a product and for a boundary.
  lemma MaskedValues(product: string, b: string, masked: string)
    requires IsBoundary(b) && |masked| == |b| && forall i :: 0 <= i < |masked| ==> masked[i] == 'b'
    ensures NormalValue(Header("user-agent", product)) == "<product>"
    ensures NormalValue(Header("content-type", "multipart/form-data; boundary=" + b)) ==
            "multipart/form-data; boundary=" + masked
  {
    hide FirstBoundary, MaskBoundary;
    MultipartValue(b);
    assert masked == Letters(|b|);
    assert MULTIPART + "boundary=" + b == "multipart/form-data; boundary=" + b;
    assert MULTIPART + ("boundary=" + masked) == "multipart/form-data; boundary=" + masked;
  }

  lemma NoBoundaryInside()
    ensures forall i :: 0 <= i < |MULTIPART| ==> MULTIPART[i] != 'b'
  {
  }

  lemma {:induction false} BoundaryOf(headers: seq<Header>, k: nat, b: string)
    requires k < |headers| && headers[k].name == "content-type" && FirstBoundary(headers[k].value) == Some(b)
    requires forall i :: 0 <= i < |headers| && i != k ==> headers[i].name != "content-type"
    ensures BoundaryIn(headers) == Some(b)
  {
    if k < |headers| - 1 {
      BoundaryOf(headers[..|headers| - 1], k, b);
    }
  }

  datatype Aspect = RequestLine | HeaderValues(name: string) | HeaderOrder | Body

  // What the two sides have under an aspect.
  datatype Difference = Difference(aspect: Aspect, ours: seq<string>, theirs: seq<string>)

  function Shared(a: Request, b: Request): set<string> {
    NameSet(a.headers) * NameSet(b.headers)
  }

  // What an aspect of a request is, when it is compared with another.
  function View(a: Request, shared: set<string>, aspect: Aspect): seq<string> {
    match aspect
    case RequestLine => [a.line]
    case HeaderValues(name) => Values(a.headers, name)
    case HeaderOrder => Kept(a.headers, shared)
    case Body => [a.body]
  }

  predicate Differ(a: Request, b: Request, aspect: Aspect) {
    View(a, Shared(a, b), aspect) != View(b, Shared(a, b), aspect)
  }

  ghost predicate Reported(out: seq<Difference>, aspect: Aspect) {
    exists i :: 0 <= i < |out| && out[i].aspect == aspect
  }

  // Every aspect in which the two differ is reported once, with what the two sides have, and nothing
  // else is.
  ghost predicate IsReport(a: Request, b: Request, out: seq<Difference>) {
    && (forall aspect :: Reported(out, aspect) <==> Differ(a, b, aspect))
    && (forall i, j :: 0 <= i < j < |out| ==> out[i].aspect != out[j].aspect)
    && (forall i :: 0 <= i < |out| ==> out[i].ours == View(a, Shared(a, b), out[i].aspect)
                                       && out[i].theirs == View(b, Shared(a, b), out[i].aspect))
  }

  lemma {:induction false} NoValuesOutside(headers: seq<Header>, name: string)
    ensures Values(headers, name) == [] <==> name !in NameSet(headers)
  {
    if headers != [] {
      NoValuesOutside(headers[1..], name);
      assert forall h :: h in headers <==> h == headers[0] || h in headers[1..];
    }
  }

  // A report that covers some of the aspects.
  ghost predicate Covers(a: Request, b: Request, out: seq<Difference>, done: iset<Aspect>) {
    && (forall aspect :: Reported(out, aspect) <==> aspect in done && Differ(a, b, aspect))
    && (forall i, j :: 0 <= i < j < |out| ==> out[i].aspect != out[j].aspect)
    && (forall i :: 0 <= i < |out| ==> out[i].ours == View(a, Shared(a, b), out[i].aspect)
                                       && out[i].theirs == View(b, Shared(a, b), out[i].aspect))
  }

  lemma CoversMore(a: Request, b: Request, out: seq<Difference>, done: iset<Aspect>, aspect: Aspect)
    requires Covers(a, b, out, done) && aspect !in done
    ensures var d := Difference(aspect, View(a, Shared(a, b), aspect), View(b, Shared(a, b), aspect));
      Covers(a, b, if Differ(a, b, aspect) then out + [d] else out, done + iset{aspect})
  {
    hide Differ, View, Shared;
    var d := Difference(aspect, View(a, Shared(a, b), aspect), View(b, Shared(a, b), aspect));
    assert !Reported(out, aspect);
    forall other
      ensures Reported(out + [d], other) <==> Reported(out, other) || other == aspect
    {
      assert (out + [d])[|out|] == d;
      if Reported(out, other) {
        var i :| 0 <= i < |out| && out[i].aspect == other;
        assert (out + [d])[i] == out[i];
      }
    }
  }

  // One comparison: it adds to the report if the two sides differ.
  method Check(a: Request, b: Request, aspect: Aspect, so: seq<Difference>, ghost done: iset<Aspect>)
    returns (out: seq<Difference>)
    requires Covers(a, b, so, done) && aspect !in done
    ensures Covers(a, b, out, done + iset{aspect})
  {
    CoversMore(a, b, so, done, aspect);
    out := so;
    var mine, yours := View(a, Shared(a, b), aspect), View(b, Shared(a, b), aspect);
    if mine != yours {
      out := out + [Difference(aspect, mine, yours)];
    }
  }

  method Compare(ours: string, theirs: string) returns (out: seq<Difference>)
    ensures IsReport(Normal(Parsed(ours)), Normal(Parsed(theirs)), out)
  {
    var mine := Parse(ours);
    var yours := Parse(theirs);
    mine := Normalize(mine);
    yours := Normalize(yours);
    out := CompareNormal(mine, yours);
  }

  method CompareNormal(a: Request, b: Request) returns (out: seq<Difference>)
    ensures IsReport(a, b, out)
  {
    assert Covers(a, b, [], iset{});
    hide Covers;
    ghost var done: iset<Aspect> := iset{RequestLine};
    out := Check(a, b, RequestLine, [], iset{});
    assert iset{} + iset{RequestLine} == done;
    var names := Sorted(NameSet(a.headers) + NameSet(b.headers));
    for n := 0 to |names|
      invariant Covers(a, b, out, done)
      invariant forall x :: x in done <==> x == RequestLine || (x.HeaderValues? && x.name in names[..n])
    {
      NewName(names, n);
      out := Check(a, b, HeaderValues(names[n]), out, done);
      done := done + iset{HeaderValues(names[n])};
      assert names[..n + 1] == names[..n] + [names[n]];
    }
    assert names[..|names|] == names;
    out := Check(a, b, HeaderOrder, out, done);
    done := done + iset{HeaderOrder};
    out := Check(a, b, Body, out, done);
    done := done + iset{Body};
    AllCovered(a, b, out, done);
  }

  lemma NewName(names: seq<string>, n: nat)
    requires Ascending(names) && n < |names|
    ensures names[n] !in names[..n]
  {
    LessIsTotal(names[n], names[n]);
  }

  lemma AllCovered(a: Request, b: Request, out: seq<Difference>, done: iset<Aspect>)
    requires Covers(a, b, out, done)
    requires forall x :: x in done <==> !x.HeaderValues? || x.name in NameSet(a.headers) + NameSet(b.headers)
    ensures IsReport(a, b, out)
  {
    forall aspect
      ensures aspect in done || !Differ(a, b, aspect)
    {
      if aspect.HeaderValues? {
        NoValuesOutside(a.headers, aspect.name);
        NoValuesOutside(b.headers, aspect.name);
      }
    }
  }

  ghost predicate SameValues(a: seq<Header>, b: seq<Header>) {
    forall name :: Values(a, name) == Values(b, name)
  }

  lemma SameValuesSameNames(a: seq<Header>, b: seq<Header>)
    requires SameValues(a, b)
    ensures NameSet(a) == NameSet(b)
  {
    forall name
      ensures name in NameSet(a) <==> name in NameSet(b)
    {
      NoValuesOutside(a, name);
      NoValuesOutside(b, name);
      assert Values(a, name) == Values(b, name);
    }
  }

  lemma {:induction false} KeptAll(headers: seq<Header>, keep: set<string>)
    requires forall h :: h in headers ==> h.name in keep
    ensures Kept(headers, keep) == Names(headers)
  {
    if headers != [] {
      KeptAll(headers[1..], keep);
    }
  }

  // The order of the names and the values under each of them are the whole list.
  lemma {:induction false} ListFromValues(a: seq<Header>, b: seq<Header>)
    requires Names(a) == Names(b) && SameValues(a, b)
    ensures a == b
  {
    hide Values, Names;
    NamesAt(a, b);
    if a != [] {
      assert Values(a, a[0].name) == Values(b, a[0].name);
      forall name
        ensures Values(a[1..], name) == Values(b[1..], name)
      {
        TailValues(a, b, name);
      }
      ListFromValues(a[1..], b[1..]);
      assert a == [a[0]] + a[1..] && b == [b[0]] + b[1..];
      FirstValue(a, b);
    }
  }

  lemma NamesAt(a: seq<Header>, b: seq<Header>)
    requires Names(a) == Names(b)
    ensures |a| == |b|
    ensures a != [] ==> a[0].name == b[0].name && Names(a[1..]) == Names(b[1..])
  {
    assert |a| == |Names(a)| == |Names(b)| == |b|;
    if a != [] {
      assert a[0].name == Names(a)[0] == Names(b)[0] == b[0].name;
      assert Names(a[1..]) == Names(a)[1..] == Names(b)[1..] == Names(b[1..]);
    }
  }

  lemma FirstValue(a: seq<Header>, b: seq<Header>)
    requires a != [] && b != [] && a[0].name == b[0].name && Values(a, a[0].name) == Values(b, a[0].name)
    ensures a[0] == b[0]
  {
    assert Values(a, a[0].name)[0] == a[0].value && Values(b, b[0].name)[0] == b[0].value;
  }

  lemma TailValues(a: seq<Header>, b: seq<Header>, name: string)
    requires a != [] && b != [] && a[0].name == b[0].name && Values(a, name) == Values(b, name)
    ensures Values(a[1..], name) == Values(b[1..], name)
  {
    if a[0].name == name {
      assert Values(a[1..], name) == Values(a, name)[1..] == Values(b, name)[1..] == Values(b[1..], name);
    } else {
      assert Values(a[1..], name) == Values(a, name) == Values(b, name) == Values(b[1..], name);
    }
  }

  // The order of the names is compared exactly when it matters.
  lemma OrderSeen(a: Request, b: Request)
    requires SameValues(a.headers, b.headers)
    ensures Differ(a, b, HeaderOrder) <==> a.headers != b.headers
  {
    SameValuesSameNames(a.headers, b.headers);
    KeptAll(a.headers, Shared(a, b));
    KeptAll(b.headers, Shared(a, b));
    if Names(a.headers) == Names(b.headers) {
      ListFromValues(a.headers, b.headers);
    }
  }

  // The comparison is complete: it is silent exactly when the two normalized requests are the same,
  // with all their headers in order.
  lemma SilentIffSame(a: Request, b: Request, out: seq<Difference>)
    requires IsReport(a, b, out)
    ensures out == [] <==> a == b
  {
    if out == [] {
      forall aspect
        ensures !Differ(a, b, aspect)
      {
        assert !Reported(out, aspect);
      }
      ValuesSeen(a, b);
      OrderSeen(a, b);
      assert !Differ(a, b, RequestLine) && !Differ(a, b, Body);
      assert View(a, Shared(a, b), RequestLine)[0] == View(b, Shared(a, b), RequestLine)[0];
      assert View(a, Shared(a, b), Body)[0] == View(b, Shared(a, b), Body)[0];
    }
    if a == b && out != [] {
      assert Reported(out, out[0].aspect);
    }
  }

  lemma ValuesSeen(a: Request, b: Request)
    requires forall name :: !Differ(a, b, HeaderValues(name))
    ensures SameValues(a.headers, b.headers)
  {
    forall name
      ensures Values(a.headers, name) == Values(b.headers, name)
    {
      assert !Differ(a, b, HeaderValues(name));
    }
  }

  ghost predicate OnlyOrder(out: seq<Difference>) {
    |out| == 1 && out[0].aspect == HeaderOrder
  }

  lemma {:induction false} CountValues(headers: seq<Header>, h: Header)
    ensures multiset(Values(headers, h.name))[h.value] == multiset(headers)[h]
  {
    if headers != [] {
      CountValues(headers[1..], h);
      assert headers == [headers[0]] + headers[1..];
    }
  }

  // When the order is all that differs, the headers are the same but for it: those of one name keep
  // their order among themselves.
  lemma OnlyOrderMeansPermuted(a: Request, b: Request, out: seq<Difference>)
    requires IsReport(a, b, out)
    ensures OnlyOrder(out) <==>
      a.line == b.line && a.body == b.body && SameValues(a.headers, b.headers) && a.headers != b.headers
    ensures OnlyOrder(out) ==> multiset(a.headers) == multiset(b.headers)
  {
    if OnlyOrder(out) {
      forall aspect
        ensures Differ(a, b, aspect) <==> aspect == HeaderOrder
      {
        assert Reported(out, aspect) <==> aspect == HeaderOrder;
      }
      ValuesSeen(a, b);
      OrderSeen(a, b);
      assert !Differ(a, b, RequestLine) && !Differ(a, b, Body);
      assert View(a, Shared(a, b), RequestLine)[0] == View(b, Shared(a, b), RequestLine)[0];
      assert View(a, Shared(a, b), Body)[0] == View(b, Shared(a, b), Body)[0];
      SamePermuted(a.headers, b.headers);
    } else if a.line == b.line && a.body == b.body && SameValues(a.headers, b.headers) && a.headers != b.headers {
      PermutedMeansOnlyOrder(a, b, out);
    }
  }

  lemma PermutedMeansOnlyOrder(a: Request, b: Request, out: seq<Difference>)
    requires IsReport(a, b, out)
    requires a.line == b.line && a.body == b.body && SameValues(a.headers, b.headers) && a.headers != b.headers
    ensures OnlyOrder(out)
  {
    OrderSeen(a, b);
    assert Reported(out, HeaderOrder);
    forall i | 0 <= i < |out|
      ensures out[i].aspect == HeaderOrder
    {
      assert Reported(out, out[i].aspect);
      SameButForOrder(a, b, out[i].aspect);
    }
    TwoAspects(out);
  }

  lemma TwoAspects(out: seq<Difference>)
    requires forall i, j :: 0 <= i < j < |out| ==> out[i].aspect != out[j].aspect
    ensures |out| > 1 ==> out[0].aspect != out[1].aspect
  {
  }

  lemma SameButForOrder(a: Request, b: Request, aspect: Aspect)
    requires a.line == b.line && a.body == b.body && SameValues(a.headers, b.headers)
    ensures Differ(a, b, aspect) ==> aspect == HeaderOrder
  {
    match aspect
    case HeaderValues(name) =>
      assert Values(a.headers, name) == Values(b.headers, name);
    case _ =>
  }

  lemma SamePermuted(a: seq<Header>, b: seq<Header>)
    requires SameValues(a, b)
    ensures multiset(a) == multiset(b)
  {
    forall h: Header
      ensures multiset(a)[h] == multiset(b)[h]
    {
      CountValues(a, h);
      CountValues(b, h);
      assert Values(a, h.name) == Values(b, h.name);
    }
  }

  const LINE_END := "\r\n"
  const HEAD_END := "\r\n\r\n"

  // A line of a request: there is something on it, and no line end within it.
  predicate IsLine(line: string) {
    line != "" && forall i :: 0 <= i < |line| ==> line[i] != '\r' && line[i] != '\n'
  }

  function Joined(lines: seq<string>): string
    requires lines != []
  {
    Glued(lines, LINE_END)
  }

  // A header as a client writes it: nothing that the parser would trim, cut or lower.
  predicate IsHeader(h: Header) {
    && IsTrimmed(h.name) && IsTrimmed(h.value) && Lower(h.name) == h.name
    && (forall i :: 0 <= i < |h.name| ==> h.name[i] != ':')
    && IsLine(h.name + ": " + h.value)
  }

  function LinesOf(headers: seq<Header>): (r: seq<string>)
    ensures |r| == |headers|
  {
    seq(|headers|, i requires 0 <= i < |headers| => headers[i].name + ": " + headers[i].value)
  }

  function Written(r: Request): string {
    Joined([r.line] + LinesOf(r.headers)) + HEAD_END + r.body
  }

  // A line end that another line follows does not end the head.
  // A head does not end at a line end that another line follows.
  lemma EndsOneLine(t: string)
    requires t != "" && t[0] != '\r'
    ensures !StartsWith(LINE_END + t, HEAD_END)
  {
    StartsAt(LINE_END + t, HEAD_END);
    assert (LINE_END + t)[2] == t[0];
  }

  lemma PastLineEnd(t: string)
    requires t != "" && t[0] != '\r'
    ensures Partition(LINE_END + t, HEAD_END) == Prefixed(LINE_END, Partition(t, HEAD_END))
  {
    hide StartsWith;
    EndsOneLine(t);
    assert (LINE_END + t)[1..] == "\n" + t;
    PartitionPast("\n", t, HEAD_END);
    assert ['\r'] + ("\n" + Partition(t, HEAD_END).0) == LINE_END + Partition(t, HEAD_END).0;
  }

  lemma {:induction false} HeadEnds(lines: seq<string>, body: string)
    requires lines != [] && forall i :: 0 <= i < |lines| ==> IsLine(lines[i])
    ensures Partition(Joined(lines) + HEAD_END + body, HEAD_END) == (Joined(lines), body)
  {
    hide Partition, Joined;
    var first := lines[0];
    if |lines| == 1 {
      OneLine(lines);
      MarkFound(HEAD_END, body);
      PartitionPast(first, HEAD_END + body, HEAD_END);
      assert first + "" == first;
      assert first + (HEAD_END + body) == first + HEAD_END + body;
    } else {
      HeadEnds(lines[1..], body);
      StartsLine(lines[1..]);
      MoreLines(first, lines[1..], body);
      PastLineEnd(Joined(lines[1..]) + HEAD_END + body);
      PartitionPast(first, LINE_END + (Joined(lines[1..]) + HEAD_END + body), HEAD_END);
      assert lines == [first] + lines[1..];
    }
  }

  lemma OneLine(lines: seq<string>)
    requires |lines| == 1
    ensures Joined(lines) == lines[0]
  {
  }

  lemma MoreLines(first: string, lines: seq<string>, body: string)
    requires lines != []
    ensures Joined([first] + lines) == first + (LINE_END + Joined(lines))
    ensures Joined([first] + lines) + HEAD_END + body == first + (LINE_END + (Joined(lines) + HEAD_END + body))
  {
    assert ([first] + lines)[1..] == lines;
  }

  lemma StartsLine(lines: seq<string>)
    requires lines != [] && IsLine(lines[0])
    ensures Joined(lines) != "" && Joined(lines)[0] == lines[0][0]
  {
  }

  lemma LinesSplit(lines: seq<string>)
    requires lines != [] && forall i :: 0 <= i < |lines| ==> IsLine(lines[i])
    ensures Split(Joined(lines), LINE_END) == lines
  {
    hide Split;
    forall i | 0 <= i < |lines|
      ensures '\r' !in lines[i]
    {
      assert IsLine(lines[i]);
    }
    GluedSplits(lines, LINE_END);
  }

  lemma HeaderReads(h: Header)
    requires IsHeader(h)
    ensures var line := h.name + ": " + h.value;
      Contains(line, ":") && HeaderOf(line) == h
  {
    var line := h.name + ": " + h.value;
    var value := " " + h.value;
    assert line == h.name + (":" + value);
    MarkFound(":", value);
    PartitionPast(h.name, ":" + value, ":");
    assert h.name + "" == h.name;
    assert Partition(line, ":") == (h.name, value);
    assert IsSpace(value[0]) && value[1..] == h.value;
    assert Strip(value) == Strip(h.value) == h.value && Strip(h.name) == h.name;
  }

  lemma {:induction false} HeadersRead(headers: seq<Header>)
    requires forall i :: 0 <= i < |headers| ==> IsHeader(headers[i])
    ensures HeadersOf(LinesOf(headers)) == headers
  {
    hide IsHeader, HeaderOf, Contains;
    if headers != [] {
      var n := |headers| - 1;
      HeadersRead(headers[..n]);
      HeaderReads(headers[n]);
      assert LinesOf(headers)[..n] == LinesOf(headers[..n]);
      assert headers == headers[..n] + [headers[n]];
    }
  }

  // Parsing takes a request apart as it was put together, whatever is in the body.
  lemma ParseReads(r: Request)
    requires IsLine(r.line) && forall i :: 0 <= i < |r.headers| ==> IsHeader(r.headers[i])
    ensures Parsed(Written(r)) == r
  {
    var lines := [r.line] + LinesOf(r.headers);
    forall i | 0 <= i < |lines|
      ensures IsLine(lines[i])
    {
      if i > 0 {
        assert IsHeader(r.headers[i - 1]);
      }
    }
    hide IsHeader, IsLine;
    HeadEnds(lines, r.body);
    LinesSplit(lines);
    assert lines[1..] == LinesOf(r.headers);
    HeadersRead(r.headers);
  }

  predicate AllSpace(s: string) {
    forall i :: 0 <= i < |s| ==> IsSpace(s[i])
  }

  // A header with its name in any case and space where it may stand.
  lemma HeaderAsSent(p: string, name: string, q: string, u: string, value: string, v: string)
    requires AllSpace(p) && AllSpace(q) && AllSpace(u) && AllSpace(v) && IsTrimmed(name) && IsTrimmed(value)
    requires forall i :: 0 <= i < |name| ==> name[i] != ':'
    ensures HeaderOf(p + name + q + ":" + (u + value + v)) == Header(Lower(name), value)
  {
    hide Strip, Partition, Contains;
    var left, right := p + name + q, u + value + v;
    assert left + ":" + right == left + (":" + right);
    MarkFound(":", right);
    PartitionPast(left, ":" + right, ":");
    assert left + "" == left;
    StripPads(p, name, q);
    StripPads(u, value, v);
  }

  lemma {:induction false} HeadersOfConcat(a: seq<string>, b: seq<string>)
    ensures HeadersOf(a + b) == HeadersOf(a) + HeadersOf(b)
  {
    hide HeaderOf, Contains;
    if b == [] {
      assert a + b == a;
    } else {
      assert (a + b)[..|a + b| - 1] == a + b[..|b| - 1];
      HeadersOfConcat(a, b[..|b| - 1]);
    }
  }

  // A line without a colon is no header, wherever it stands.
  lemma ColonlessIsIgnored(a: seq<string>, line: string, b: seq<string>)
    requires !Contains(line, ":")
    ensures HeadersOf(a + [line] + b) == HeadersOf(a + b)
  {
    HeadersOfConcat(a + [line], b);
    HeadersOfConcat(a, [line]);
    HeadersOfConcat(a, b);
    assert [line][..0] == [];
    assert HeadersOf([line]) == [];
  }

  // Which aspects differ, and what is told of them.
  lemma DifferMeans(a: Request, b: Request, name: string, shared: set<string>)
    ensures Differ(a, b, RequestLine) <==> a.line != b.line
    ensures Differ(a, b, Body) <==> a.body != b.body
    ensures Differ(a, b, HeaderValues(name)) <==> Values(a.headers, name) != Values(b.headers, name)
    ensures View(a, shared, RequestLine) == [a.line] && View(a, shared, Body) == [a.body]
    ensures View(a, shared, HeaderValues(name)) == Values(a.headers, name)
  {
    assert [a.line][0] == a.line && [a.body][0] == a.body;
    assert [b.line][0] == b.line && [b.body][0] == b.body;
  }

  lemma {:induction false} KeptConcat(a: seq<Header>, b: seq<Header>, keep: set<string>)
    ensures Kept(a + b, keep) == Kept(a, keep) + Kept(b, keep)
  {
    if a == [] {
      assert a + b == b;
    } else {
      assert (a + b)[1..] == a[1..] + b;
      KeptConcat(a[1..], b, keep);
    }
  }

  // A header that only one side sends does not make the order look different.
  lemma OneSidedIsNoOrder(r: Request, q: Request, x: seq<Header>, h: Header, y: seq<Header>)
    requires r.headers == x + [h] + y && q.headers == x + y && h.name !in NameSet(x + y)
    ensures !Differ(r, q, HeaderOrder) && !Differ(q, r, HeaderOrder)
    ensures Differ(r, q, HeaderValues(h.name))
  {
    SharedWithout(r, q, x, h, y);
    var keep := NameSet(x + y);
    hide NameSet, Values;
    KeptConcat(x + [h], y, keep);
    KeptConcat(x, [h], keep);
    KeptConcat(x, y, keep);
    assert Kept([h], keep) == [];
    NoValuesOutside(q.headers, h.name);
    NoValuesOutside(r.headers, h.name);
  }

  lemma SharedWithout(r: Request, q: Request, x: seq<Header>, h: Header, y: seq<Header>)
    requires r.headers == x + [h] + y && q.headers == x + y
    ensures Shared(r, q) == Shared(q, r) == NameSet(x + y)
    ensures h.name in NameSet(r.headers)
  {
    assert forall g :: g in x + y ==> g in r.headers;
    assert r.headers[|x|] == h;
  }

  // Order is order among the names that both sides send.
  lemma OrderMeans(r: Request, q: Request)
    requires NameSet(r.headers) == NameSet(q.headers)
    ensures Differ(r, q, HeaderOrder) <==> Names(r.headers) != Names(q.headers)
  {
    KeptAll(r.headers, Shared(r, q));
    KeptAll(q.headers, Shared(r, q));
  }
}
