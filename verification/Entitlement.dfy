/**
What an identity may ask the CA for (internal/entitlement/entitlement.go): patterns, their
compilation, and the two checks, by profile and by name.
*/
module Entitlement {
  import opened Certificate
  import opened Glob
  import opened Issuance
  import opened Wrappers

  datatype NameType = CnName | DnsName | IpName | UriName | EmailName

  // A name a request or a certificate carries.
  datatype Name = Cn(text: string) | Dns(text: string) | Address(ip: Ip) | Uri(text: string) | Email(text: string)

  // raw is the glob as written, expr what it was compiled to; an address pattern is a range.
  datatype Pattern =
    | Text(kind: NameType, raw: string, expr: string)
    | AnyAddress
    | Addresses(v4: bool, low: nat, high: nat)

  datatype Entitlement = Granted(profiles: set<string>, names: seq<Pattern>)

  datatype Spec = Spec(profiles: seq<string>, names: seq<string>)

  // Reading an address or a range is the standard library's.
  type AddressReader = string -> Option<(bool, nat, nat)>

  function TypeOf(n: Name): NameType {
    match n case Cn(_) => CnName case Dns(_) => DnsName case Address(_) => IpName case Uri(_) => UriName case Email(_) => EmailName
  }

  function PatternType(p: Pattern): NameType {
    if p.Text? then p.kind else IpName
  }

  // A version 4 address written as a version 6 one is the version 4 address.
  function Normal(ip: Ip): Ip {
    if !ip.v4 && ip.address / 0x1_0000_0000 == 0xffff then Ip(true, ip.address % 0x1_0000_0000) else ip
  }

  /** A version 4 address is the same in both its forms, and no other version 6 address is one. */
  lemma NormalIs(ip: Ip)
    ensures ip.v4 ==> Normal(ip) == ip
    ensures forall a: nat :: a < 0x1_0000_0000 ==> Normal(Ip(false, 0xffff_0000_0000 + a)) == Ip(true, a)
    ensures Normal(ip).v4 ==> Normal(ip).address == ip.address || ip.address == 0xffff_0000_0000 + Normal(ip).address
  {
  }

  predicate Accepts(p: Pattern, n: Name, folds: Fold) {
    match p
    case Text(_, _, expr) => !n.Address? && MatchString(expr, n.text, folds)
    case AnyAddress => n.Address?
    case Addresses(v4, low, high) => n.Address? && Normal(n.ip).v4 == v4 && low <= Normal(n.ip).address <= high
  }

  // Parsing.

  // The text before and after the first separator.
  function Cut(s: string, sep: char): Option<(string, string)> {
    if s == [] then None
    else if s[0] == sep then Some(([], s[1..]))
    else
      var rest := Cut(s[1..], sep);
      if rest.None? then None else Some(([s[0]] + rest.value.0, rest.value.1))
  }

  function TypeNamed(s: string): Option<NameType> {
    if s == "cn" then Some(CnName)
    else if s == "dns" then Some(DnsName)
    else if s == "ip" then Some(IpName)
    else if s == "uri" then Some(UriName)
    else if s == "email" then Some(EmailName)
    else None
  }

  function PatternOf(s: string, addresses: AddressReader): Option<Pattern> {
    var cut := Cut(s, ':');
    if cut.None? || cut.value.1 == "" || TypeNamed(cut.value.0).None? then None
    else
      var (kind, rest) := (TypeNamed(cut.value.0).value, cut.value.1);
      if kind != IpName then Some(Text(kind, rest, Expression(rest, kind == DnsName)))
      else if rest == "*" then Some(AnyAddress)
      else
        match addresses(rest)
        case None => None
        case Some((v4, low, high)) => Some(Addresses(v4, low, high))
  }

  method ParsePattern(s: string, addresses: AddressReader) returns (p: Option<Pattern>)
    ensures p == PatternOf(s, addresses)
  {
    var cut := Cut(s, ':');
    if cut.None? || cut.value.1 == "" {
      return None;
    }
    var rest := cut.value.1;
    var kind := TypeNamed(cut.value.0);
    match kind {
      case None => p := None;
      case Some(IpName) =>
        if rest == "*" {
          return Some(AnyAddress);
        }
        var range := addresses(rest);
        p := if range.None? then None else Some(Addresses(range.value.0, range.value.1, range.value.2));
      case Some(k) =>
        var expr := GlobRegexp(rest, k == DnsName);
        p := Some(Text(k, rest, expr));
    }
  }

  // How each type is written.
  function TypeText(kind: NameType): string {
    match kind case CnName => "cn" case DnsName => "dns" case IpName => "ip" case UriName => "uri" case EmailName => "email"
  }

  lemma {:induction false} CutIsFirst(s: string, sep: char, a: string, b: string)
    ensures Cut(s, sep) == Some((a, b)) <==> sep !in a && s == a + [sep] + b
  {
    if s == [] {
    } else if a == [] {
      assert s == [s[0]] + s[1..];
      assert [] + [sep] + b == [sep] + b;
    } else {
      CutIsFirst(s[1..], sep, a[1..], b);
      assert a == [a[0]] + a[1..];
      assert a + [sep] + b == [a[0]] + (a[1..] + [sep] + b);
    }
  }

  lemma TypeNames(s: string, kind: NameType)
    ensures TypeNamed(s) == Some(kind) <==> s == TypeText(kind)
    ensures ':' !in TypeText(kind)
  {
  }

  // A text written as a type, a colon and something more.
  ghost predicate WrittenAs(s: string, kind: NameType, rest: string) {
    rest != "" && s == TypeText(kind) + ":" + rest
  }

  lemma WrittenOnce(s: string, kind: NameType, rest: string)
    ensures WrittenAs(s, kind, rest) <==>
            Cut(s, ':').Some? && Cut(s, ':').value.1 == rest != "" && TypeNamed(Cut(s, ':').value.0) == Some(kind)
  {
    CutIsFirst(s, ':', TypeText(kind), rest);
    TypeNames(TypeText(kind), kind);
    if Cut(s, ':').Some? {
      TypeNames(Cut(s, ':').value.0, kind);
      CutIsFirst(s, ':', Cut(s, ':').value.0, Cut(s, ':').value.1);
    }
  }

  /**
  Exactly which texts are patterns: a known type and a non-empty rest, apart at the first
  colon, the rest of an address pattern being a star or an address that reads.
  */
  lemma AcceptedTexts(s: string, addresses: AddressReader)
    ensures PatternOf(s, addresses).Some? <==>
            exists kind, rest :: WrittenAs(s, kind, rest) && (kind == IpName ==> rest == "*" || addresses(rest).Some?)
  {
    forall kind, rest ensures WrittenAs(s, kind, rest) <==>
            Cut(s, ':').Some? && Cut(s, ':').value.1 == rest != "" && TypeNamed(Cut(s, ':').value.0) == Some(kind) {
      WrittenOnce(s, kind, rest);
    }
    var cut := Cut(s, ':');
    if cut.Some? && cut.value.1 != "" && TypeNamed(cut.value.0).Some? {
      assert WrittenAs(s, TypeNamed(cut.value.0).value, cut.value.1);
    }
  }

  /** Writing a pattern and reading it back: the type and glob that were written, or the addresses that read. */
  lemma WrittenIsRead(kind: NameType, rest: string, addresses: AddressReader)
    requires rest != ""
    ensures
      var p := PatternOf(TypeText(kind) + ":" + rest, addresses);
      if kind != IpName then p.Some? && p.value.Text? && p.value.kind == kind && p.value.raw == rest && Compiled(p.value)
      else if rest == "*" then p == Some(AnyAddress)
      else if addresses(rest).None? then p.None?
      else p == Some(Addresses(addresses(rest).value.0, addresses(rest).value.1, addresses(rest).value.2))
  {
    WrittenOnce(TypeText(kind) + ":" + rest, kind, rest);
    ParsedIsCompiled(TypeText(kind) + ":" + rest, addresses);
  }

  // The direct reading of a pattern: a glob, folded for DNS names only, or a range.
  predicate Means(p: Pattern, n: Name, folds: Fold) {
    match p
    case Text(kind, raw, _) => kind == TypeOf(n) && !n.Address? && GlobMatches(raw, n.text, if kind == DnsName then folds else Exactly)
    case AnyAddress => n.Address?
    case Addresses(v4, low, high) => n.Address? && Normal(n.ip).v4 == v4 && low <= Normal(n.ip).address <= high
  }

  predicate Compiled(p: Pattern) {
    p.Text? ==> p.kind != IpName && p.expr == Expression(p.raw, p.kind == DnsName)
  }

  /** A pattern of the name's type accepts exactly the names its direct reading does. */
  lemma AcceptsWhatItMeans(p: Pattern, n: Name, folds: Fold)
    requires Compiled(p)
    ensures PatternType(p) == TypeOf(n) && Accepts(p, n, folds) <==> Means(p, n, folds)
  {
    if p.Text? && !n.Address? {
      CompiledMatchesAsGlob(p.raw, n.text, p.kind == DnsName, folds);
      ExpressionIsRead(p.raw, p.kind == DnsName);
    }
  }

  lemma ParsedIsCompiled(s: string, addresses: AddressReader)
    ensures PatternOf(s, addresses).Some? ==> Compiled(PatternOf(s, addresses).value)
  {
  }

  // An entry that grants something, nothing internal, nothing twice, every pattern parsed.
  ghost predicate SpecOk(s: Spec, addresses: AddressReader) {
    && s.profiles != [] && s.names != [] && ProfilesOk(s.profiles)
    && (forall raw <- s.names :: PatternOf(raw, addresses).Some?)
  }

  // The names granted: none empty, none internal, none twice.
  ghost predicate ProfilesOk(profiles: seq<string>) {
    && (forall p <- profiles :: p != "" && !InternalOnly(p))
    && (forall i, j :: 0 <= i < j < |profiles| ==> profiles[i] != profiles[j])
  }

  method CompileProfiles(names: seq<string>) returns (profiles: Option<set<string>>)
    ensures profiles.Some? <==> ProfilesOk(names)
    ensures profiles.Some? ==> forall p :: p in profiles.value <==> p in names
  {
    var granted: set<string> := {};
    for i := 0 to |names|
      invariant forall p :: p in granted <==> p in names[..i]
      invariant ProfilesOk(names[..i])
    {
      var name := names[i];
      assert name in names && names[..i + 1] == names[..i] + [name];
      if name == "" || InternalOnly(name) {
        return None;
      }
      if name in granted {
        ghost var j :| 0 <= j < i && names[j] == name;
        assert names[j] == names[i];
        return None;
      }
      granted := granted + {name};
    }
    assert names[..|names|] == names;
    profiles := Some(granted);
  }

  method CompileNames(texts: seq<string>, addresses: AddressReader) returns (names: Option<seq<Pattern>>)
    ensures names.Some? <==> forall raw <- texts :: PatternOf(raw, addresses).Some?
    ensures names.Some? ==>
              && |names.value| == |texts|
              && forall i :: 0 <= i < |texts| ==> Some(names.value[i]) == PatternOf(texts[i], addresses) && Compiled(names.value[i])
  {
    var patterns: seq<Pattern> := [];
    for i := 0 to |texts|
      invariant |patterns| == i
      invariant forall j :: 0 <= j < i ==> Some(patterns[j]) == PatternOf(texts[j], addresses) && Compiled(patterns[j])
    {
      var p := ParsePattern(texts[i], addresses);
      if p.None? {
        return None;
      }
      ParsedIsCompiled(texts[i], addresses);
      patterns := patterns + [p.value];
    }
    names := Some(patterns);
  }

  method Compile(s: Spec, addresses: AddressReader) returns (e: Option<Entitlement>)
    ensures e.Some? <==>
              && s.profiles != [] && s.names != []
              && "" !in s.profiles && "ocsp-responder" !in s.profiles
              && (forall i, j :: 0 <= i < |s.profiles| && 0 <= j < |s.profiles| && i != j ==> s.profiles[i] != s.profiles[j])
              && (forall text <- s.names :: PatternOf(text, addresses).Some?)
    ensures e.Some? ==>
              && (forall p :: p in e.value.profiles <==> p in s.profiles)
              && |e.value.names| == |s.names|
              && forall i :: 0 <= i < |s.names| ==> Some(e.value.names[i]) == PatternOf(s.names[i], addresses) && Compiled(e.value.names[i])
  {
    if |s.profiles| == 0 || |s.names| == 0 {
      return None;
    }
    var profiles := CompileProfiles(s.profiles);
    if profiles.None? {
      return None;
    }
    var names := CompileNames(s.names, addresses);
    e := if names.None? then None else Some(Granted(profiles.value, names.value));
  }

  // Checks.

  predicate PermitsProfile(e: Entitlement, name: string) {
    name in e.profiles && !InternalOnly(name)
  }

  // Every name: the common name when there is one, and the four kinds of alternative name.
  ghost predicate Carries(names: Attributes, sans: Sans, n: Name) {
    match n
    case Cn(text) => text == CommonName(names) && text != ""
    case Dns(text) => text in sans.dns
    case Address(ip) => ip in sans.ips
    case Uri(text) => text in sans.uris
    case Email(text) => text in sans.emails
  }

  ghost predicate Allowed(e: Entitlement, n: Name, folds: Fold) {
    exists p <- e.names :: PatternType(p) == TypeOf(n) && Accepts(p, n, folds)
  }

  method Check(e: Entitlement, n: Name, folds: Fold) returns (ok: bool)
    ensures ok <==> Allowed(e, n, folds)
  {
    for i := 0 to |e.names|
      invariant forall j :: 0 <= j < i ==> !(PatternType(e.names[j]) == TypeOf(n) && Accepts(e.names[j], n, folds))
    {
      if PatternType(e.names[i]) == TypeOf(n) && Accepts(e.names[i], n, folds) {
        return true;
      }
    }
    ok := false;
  }

  // One kind of alternative name, whose first refused one is returned.
  method CheckAll(e: Entitlement, names: seq<Name>, folds: Fold) returns (refused: Option<Name>)
    ensures refused.None? <==> forall n <- names :: Allowed(e, n, folds)
    ensures refused.Some? ==> refused.value in names && !Allowed(e, refused.value, folds)
  {
    for i := 0 to |names|
      invariant forall j :: 0 <= j < i ==> Allowed(e, names[j], folds)
    {
      var ok := Check(e, names[i], folds);
      if !ok {
        return Some(names[i]);
      }
    }
    refused := None;
  }

  function Tags(texts: seq<string>, tag: string -> Name): (names: seq<Name>)
    ensures |names| == |texts| && forall i :: 0 <= i < |texts| ==> names[i] == tag(texts[i])
  {
    seq(|texts|, i requires 0 <= i < |texts| => tag(texts[i]))
  }

  /** Every name of the request has a pattern of its own type that accepts it, or one is refused. */
  method PermitsNames(e: Entitlement, csr: Csr, folds: Fold) returns (refused: Option<Name>)
    ensures refused.None? <==> forall n: Name :: Carries(csr.names, csr.sans, n) ==> Allowed(e, n, folds)
    ensures refused.Some? ==> Carries(csr.names, csr.sans, refused.value) && !Allowed(e, refused.value, folds)
  {
    var cn := CommonName(csr.names);
    if cn != "" {
      var ok := Check(e, Cn(cn), folds);
      if !ok {
        return Some(Cn(cn));
      }
    }
    var dns := Tags(csr.sans.dns, t => Dns(t));
    refused := CheckAll(e, dns, folds);
    if refused.Some? {
      return;
    }
    var ips := seq(|csr.sans.ips|, i requires 0 <= i < |csr.sans.ips| => Address(csr.sans.ips[i]));
    refused := CheckAll(e, ips, folds);
    if refused.Some? {
      return;
    }
    var uris := Tags(csr.sans.uris, t => Uri(t));
    refused := CheckAll(e, uris, folds);
    if refused.Some? {
      return;
    }
    var emails := Tags(csr.sans.emails, t => Email(t));
    refused := CheckAll(e, emails, folds);
    if refused.Some? {
      return;
    }
    forall n: Name | Carries(csr.names, csr.sans, n) ensures Allowed(e, n, folds) {
      match n {
        case Cn(text) =>
        case Dns(text) =>
          var i :| 0 <= i < |csr.sans.dns| && csr.sans.dns[i] == text;
          assert dns[i] == n;
        case Address(ip) =>
          var i :| 0 <= i < |csr.sans.ips| && csr.sans.ips[i] == ip;
          assert ips[i] == n;
        case Uri(text) =>
          var i :| 0 <= i < |csr.sans.uris| && csr.sans.uris[i] == text;
          assert uris[i] == n;
        case Email(text) =>
          var i :| 0 <= i < |csr.sans.emails| && csr.sans.emails[i] == text;
          assert emails[i] == n;
      }
    }
  }
}
