/** The servlet that serves the application's `index.html`: at `init` it reads
    the page once (or settles on an error page) and picks up the two
    Content-Security-Policy strings from its init parameters; every GET then
    replays exactly that. */
module Kickstart {
  import opened Java
  import opened Servlet

  const CspHeader := "Content-Security-Policy"
  const CspReportOnlyHeader := "Content-Security-Policy-Report-Only"

  const NullContextMessage := "ServletContext is null"
  const NotDeployedMessage := "No index.html deployed as static file in application"
  const ReadErrorPrefix := "Could not read index.html: "
  const ContextErrorPrefix := "Could not get ServletContext: "

  /** `blankToNull`: `null` for `null` and for blank strings, the stripped string
      otherwise. */
  function BlankToNull(s: Option<string>): (r: Option<string>)
    ensures r.None? <==> s.None? || IsBlank(s.value)
    ensures r.Some? ==> r.value != [] && !IsWhitespace(r.value[0]) && !IsWhitespace(r.value[|r.value| - 1])
    ensures r.Some? ==> WhitespaceFramed(s.value, r.value)
  {
    if s.None? then None
    else if IsBlank(s.value) then None
    else Some(Strip(s.value))
  }

  /** Normalising a normalised value changes nothing. */
  lemma BlankToNullIdempotent(s: Option<string>)
    ensures BlankToNull(BlankToNull(s)) == BlankToNull(s)
  {
    if s.Some? && !IsBlank(s.value) {
      StripIdempotent(s.value);
    }
  }

  /** Conversely, any non-empty piece of the value that is framed by whitespace
      and neither starts nor ends with whitespace is what `blankToNull` returns. */
  lemma BlankToNullUnique(s: string, t: string)
    requires WhitespaceFramed(s, t)
    requires t != [] && !IsWhitespace(t[0]) && !IsWhitespace(t[|t| - 1])
    ensures BlankToNull(Some(s)) == Some(t)
  {
    var i :| 0 <= i <= |s| - |t| && s[i..i + |t|] == t && IsBlank(s[..i]) && IsBlank(s[i + |t|..]);
    assert s == s[..i] + t + s[i + |t|..];
    StripUnique(s[..i], t, s[i + |t|..]);
    assert !IsWhitespace(s[i]);
  }

  // ---------------------------------------------------------------------------
  // The two policies and how the init parameters set them

  /** The servlet's `csp` and `cspReportOnly` fields. */
  datatype Policies = Policies(csp: Option<string>, reportOnly: Option<string>)

  /** Which of the two policies. */
  datatype Directive = Enforce | ReportOnly

  /** The header, and init parameter, name of a policy. */
  function HeaderName(d: Directive): string {
    match d
    case Enforce => CspHeader
    case ReportOnly => CspReportOnlyHeader
  }

  function Policy(p: Policies, d: Directive): Option<string> {
    match d
    case Enforce => p.csp
    case ReportOnly => p.reportOnly
  }

  /** One round of the parameter loop in `init`. */
  function ApplyParameter(p: Policies, params: InitParameters, name: string): Policies {
    if EqualsIgnoreCase(CspHeader, name) then p.(csp := BlankToNull(params.Get(name)))
    else if EqualsIgnoreCase(CspReportOnlyHeader, name) then p.(reportOnly := BlankToNull(params.Get(name)))
    else p
  }

  /** The parameter loop of `init` over `names`, from `start`. */
  function ApplyParameters(start: Policies, params: InitParameters, names: seq<string>): Policies
    decreases |names|
  {
    if names == [] then start
    else ApplyParameter(ApplyParameters(start, params, names[..|names| - 1]), params, names[|names| - 1])
  }

  /** No name matches both policy names, so the `else` in the loop never hides a
      match. */
  lemma HeaderNamesExclusive(name: string)
    ensures !(EqualsIgnoreCase(CspHeader, name) && EqualsIgnoreCase(CspReportOnlyHeader, name))
  {
  }

  /** Matching a parameter name against a policy name is exactly Java's
      `equalsIgnoreCase`, since both policy names are ASCII. */
  lemma PolicyNameMatchIsJava(d: Directive, name: string)
    ensures EqualsIgnoreCase(HeaderName(d), name)
        <==> |HeaderName(d)| == |name|
             && forall i :: 0 <= i < |name| ==> JavaCharsEqualIgnoreCase(HeaderName(d)[i], name[i])
  {
    EqualsIgnoreCaseIsJavaRule(HeaderName(d), name);
  }

  /** One parameter sets the policy whose name it matches, and leaves the other
      policy alone. */
  lemma ApplyParameterPolicy(p: Policies, params: InitParameters, name: string, d: Directive)
    ensures Policy(ApplyParameter(p, params, name), d)
         == if EqualsIgnoreCase(HeaderName(d), name) then BlankToNull(params.Get(name)) else Policy(p, d)
  {
    HeaderNamesExclusive(name);
  }

  /** A policy comes from the last parameter whose name matches it. */
  lemma {:induction false} LastMatchWins(start: Policies, params: InitParameters, names: seq<string>, d: Directive, k: nat)
    requires k < |names| && EqualsIgnoreCase(HeaderName(d), names[k])
    requires forall j :: k < j < |names| ==> !EqualsIgnoreCase(HeaderName(d), names[j])
    ensures Policy(ApplyParameters(start, params, names), d) == BlankToNull(params.Get(names[k]))
  {
    var last := |names| - 1;
    var prefix := names[..last];
    ApplyParameterPolicy(ApplyParameters(start, params, prefix), params, names[last], d);
    if k < last {
      LastMatchWins(start, params, prefix, d, k);
    }
  }

  /** A policy no parameter name matches keeps its value. */
  lemma {:induction false} NoMatchKeepsPolicy(start: Policies, params: InitParameters, names: seq<string>, d: Directive)
    requires forall j :: 0 <= j < |names| ==> !EqualsIgnoreCase(HeaderName(d), names[j])
    ensures Policy(ApplyParameters(start, params, names), d) == Policy(start, d)
  {
    if names != [] {
      var last := |names| - 1;
      ApplyParameterPolicy(ApplyParameters(start, params, names[..last]), params, names[last], d);
      NoMatchKeepsPolicy(start, params, names[..last], d);
    }
  }

  /** What a policy ends up as depends on its own starting value only, never on
      the other policy's. */
  lemma {:induction false} PoliciesIndependent(s1: Policies, s2: Policies, params: InitParameters, names: seq<string>, d: Directive)
    requires Policy(s1, d) == Policy(s2, d)
    ensures Policy(ApplyParameters(s1, params, names), d) == Policy(ApplyParameters(s2, params, names), d)
  {
    if names != [] {
      var last := |names| - 1;
      PoliciesIndependent(s1, s2, params, names[..last], d);
      ApplyParameterPolicy(ApplyParameters(s1, params, names[..last]), params, names[last], d);
      ApplyParameterPolicy(ApplyParameters(s2, params, names[..last]), params, names[last], d);
    }
  }

  /** The headers `doGet` sets for the two policies. */
  function PolicyHeaders(p: Policies): (h: map<string, string>)
    ensures CspHeader in h <==> p.csp.Some?
    ensures p.csp.Some? ==> h[CspHeader] == p.csp.value
    ensures CspReportOnlyHeader in h <==> p.reportOnly.Some?
    ensures p.reportOnly.Some? ==> h[CspReportOnlyHeader] == p.reportOnly.value
    ensures h.Keys <= {CspHeader, CspReportOnlyHeader}
  {
    (if p.csp.Some? then map[CspHeader := p.csp.value] else map[])
    + (if p.reportOnly.Some? then map[CspReportOnlyHeader := p.reportOnly.value] else map[])
  }

  // ---------------------------------------------------------------------------
  // Reading index.html at init

  /** `readAllBytes` returned: the only path on which the status becomes 200. */
  predicate IndexRead(c: ContextLookup) {
    c.ContextFound? && c.resource.Opened? && c.resource.read.ReadAll?
  }

  /** The page was read and both streams closed: the body is the page itself. */
  predicate IndexServed(c: ContextLookup) {
    IndexRead(c) && c.resource.read.close.Closed?
  }

  /** The text of the exception caught around reading the resource, if any:
      opening it, reading it or closing it threw. */
  function CaughtReadError(c: ContextLookup): Option<string> {
    if !c.ContextFound? then None
    else match c.resource
      case OpenThrew(e) => Some(e)
      case NotDeployed => None
      case Opened(ReadThrew(e)) => Some(e)
      case Opened(ReadAll(_, Closed)) => None
      case Opened(ReadAll(_, CloseThrew(e))) => Some(e)
  }

  /** The body `init` settles on, path by path. */
  ghost predicate BodyFor(c: ContextLookup, body: seq<byte>) {
    && (c.ContextIsNull? ==> body == Utf8(NullContextMessage))
    && (c.ContextThrew? ==> body == Utf8(ContextErrorPrefix + c.error))
    && (c.ContextFound? && c.resource.NotDeployed? ==> body == Utf8(NotDeployedMessage))
    && (CaughtReadError(c).Some? ==> body == Utf8(ReadErrorPrefix + CaughtReadError(c).value))
    && (IndexServed(c) ==> body == c.resource.read.content)
  }

  /** An error body that carries an exception's text is the message's bytes,
      one per character, followed by the encoded text. */
  lemma ErrorBodyLayout(prefix: string, error: string)
    requires prefix == ReadErrorPrefix || prefix == ContextErrorPrefix
    ensures Utf8(prefix + error) == Utf8(prefix) + Utf8(error)
    ensures |Utf8(prefix)| == |prefix|
    ensures forall i :: 0 <= i < |prefix| ==> Utf8(prefix)[i] as int == prefix[i] as int
  {
    Utf8Append(prefix, error);
    Utf8Ascii(prefix);
  }

  /** Every path is exactly one of: a null context, a failing context, no
      deployed page, a caught read error, or the page served. */
  lemma InitPathsPartition(c: ContextLookup)
    ensures c.ContextIsNull? || c.ContextThrew? || (c.ContextFound? && c.resource.NotDeployed?)
         || CaughtReadError(c).Some? || IndexServed(c)
    ensures IndexServed(c) ==> CaughtReadError(c).None?
    ensures CaughtReadError(c).Some? ==> c.ContextFound? && !c.resource.NotDeployed? && !IndexServed(c)
    ensures IndexRead(c) && !IndexServed(c) ==> CaughtReadError(c).Some?
    ensures IndexRead(c) && c.resource.read.close.CloseThrew? ==> CaughtReadError(c) == Some(c.resource.read.close.error)
  {
  }

  class IndexServlet {
    var bytes: Option<seq<byte>>
    var status: int
    var csp: Option<string>
    var cspReportOnly: Option<string>

    /** The container instantiates the servlet with Java's default field values. */
    constructor ()
      ensures bytes == None && status == 0 && csp == None && cspReportOnly == None
    {
      bytes, status, csp, cspReportOnly := None, 0, None, None;
    }

    /** `init`: settle the status and body from reading the page, then fold the
        init parameters into the two policies. */
    method Init(context: ContextLookup, params: InitParameters)
      modifies this
      ensures status == (if IndexRead(context) then 200 else 500)
      ensures bytes.Some? && BodyFor(context, bytes.value)
      ensures Policies(csp, cspReportOnly)
           == ApplyParameters(Policies(old(csp), old(cspReportOnly)), params, params.names)
    {
      status := 500;
      match context {
        case ContextIsNull =>
          bytes := Some(Utf8(NullContextMessage));
        case ContextThrew(e) =>
          bytes := Some(Utf8(ContextErrorPrefix + e));
        case ContextFound(resource) =>
          // the exception that ends the try-with-resources around the resource
          var thrown: Option<string> := None;
          match resource {
            case OpenThrew(e) =>
              thrown := Some(e);
            case NotDeployed =>
              bytes := Some(Utf8(NotDeployedMessage));
            case Opened(read) =>
              match read {
                case ReadThrew(e) =>
                  thrown := Some(e);
                case ReadAll(content, close) =>
                  bytes := Some(content);
                  status := 200;
                  if close.CloseThrew? {
                    thrown := Some(close.error);
                  }
              }
          }
          if thrown.Some? {
            bytes := Some(Utf8(ReadErrorPrefix + thrown.value));
          }
      }

      ghost var start := Policies(old(csp), old(cspReportOnly));
      ghost var status0, bytes0 := status, bytes;
      var names := params.names;
      var i := 0;
      while i < |names|
        invariant 0 <= i <= |names|
        invariant Policies(csp, cspReportOnly) == ApplyParameters(start, params, names[..i])
        invariant status == status0 && bytes == bytes0
      {
        var name := names[i];
        if EqualsIgnoreCase(CspHeader, name) {
          csp := BlankToNull(params.Get(name));
        } else if EqualsIgnoreCase(CspReportOnlyHeader, name) {
          cspReportOnly := BlankToNull(params.Get(name));
        }
        assert names[..i + 1][..i] == names[..i];
        i := i + 1;
      }
      assert names[..i] == names;
    }

    /** `doGet`: answer with the page and policies fixed at `init`. */
    method DoGet(res: Response) returns (r: Response)
      requires bytes.Some?
      ensures r.contentType == Some("text/html")
      ensures r.characterEncoding == Some("utf-8")
      ensures r.headers == res.headers + PolicyHeaders(Policies(csp, cspReportOnly))
      ensures r.status == status
      ensures r.contentLength == Some(|bytes.value|)
      ensures r.body == res.body + bytes.value
    {
      r := res.(contentType := Some("text/html"));
      r := r.(characterEncoding := Some("utf-8"));
      if csp.Some? {
        r := r.(headers := r.headers[CspHeader := csp.value]);
      }
      if cspReportOnly.Some? {
        r := r.(headers := r.headers[CspReportOnlyHeader := cspReportOnly.value]);
      }
      r := r.(status := status);
      r := r.(contentLength := Some(|bytes.value|));
      r := r.(body := r.body + bytes.value);
    }

    /** GET changes nothing in the servlet, so two GETs answer alike. */
    method GetTwice(res: Response) returns (first: Response, second: Response)
      requires bytes.Some?
      ensures first == second
    {
      first := DoGet(res);
      second := DoGet(res);
    }
  }

  /** The container's life cycle: instantiate the servlet, run `init`, answer a
      GET on a fresh response. */
  method ServeFirstRequest(context: ContextLookup, params: InitParameters) returns (r: Response)
    ensures r.status == 200 <==> IndexRead(context)
    ensures r.status == 200 || r.status == 500
    ensures BodyFor(context, r.body) && r.contentLength == Some(|r.body|)
    ensures r.contentType == Some("text/html") && r.characterEncoding == Some("utf-8")
    ensures r.headers == PolicyHeaders(ApplyParameters(Policies(None, None), params, params.names))
  {
    var servlet := new IndexServlet();
    servlet.Init(context, params);
    r := servlet.DoGet(FreshResponse);
    assert map[] + PolicyHeaders(Policies(servlet.csp, servlet.cspReportOnly))
        == PolicyHeaders(Policies(servlet.csp, servlet.cspReportOnly));
  }
}
