/**
 * The method classifier: the closed set of HTTP methods the server accepts, their
 * upper-case names (section 9.1 of RFC 9110: method tokens are case-sensitive),
 * their iteration order, and the per-method body predicates.
 */
module Method {
  import opened Wrappers

  /** Declaration order is also the order of the derived `Ord` and of iteration. */
  datatype SupportedMethod = Get | Post | Put | Delete | Head | Options | Patch

  /** The `Allow` header value the source spells out by hand. */
  const ALLOW_HEADER: string := "GET, POST, PUT, DELETE, HEAD, OPTIONS, PATCH"

  /** `SupportedMethod::iter()`: every variant, in declaration order. */
  const AllMethods: seq<SupportedMethod> := [Get, Post, Put, Delete, Head, Options, Patch]

  /** Position in the declaration, the discriminant the derived `Ord` compares. */
  function Ordinal(m: SupportedMethod): nat
  {
    match m
    case Get => 0
    case Post => 1
    case Put => 2
    case Delete => 3
    case Head => 4
    case Options => 5
    case Patch => 6
  }

  predicate IsUpper(c: char) { 'A' <= c <= 'Z' }

  /** ASCII lower-casing of a token, used to state case-sensitivity. */
  function ToLower(s: string): (r: string)
    ensures |r| == |s|
    ensures forall i :: 0 <= i < |s| && IsUpper(s[i]) ==> !IsUpper(r[i])
  {
    seq(|s|, i requires 0 <= i < |s| => if IsUpper(s[i]) then (s[i] as int + 32) as char else s[i])
  }

  /** A rejected method token, carried back unchanged. */
  datatype UnsupportedMethod = UnsupportedMethod(token: string)

  /** The error message `thiserror` derives for `UnsupportedMethod`. */
  function UnsupportedMessage(e: UnsupportedMethod): (msg: string)
    ensures |msg| > 12 && msg[..12] == "HTTP method " && e.token <= msg[12..]
  {
    "HTTP method " + e.token + " is not supported by this server"
  }

  /** `SupportedMethod::new` / `TryFrom<Method>`: exact, case-sensitive token match. */
  function New(token: string): (r: Result<SupportedMethod, UnsupportedMethod>)
    ensures r.Ok? ==> Name(r.value) == token
    ensures r.Err? ==> r.error == UnsupportedMethod(token)
    ensures r.Err? ==> forall m :: Name(m) != token
  {
    match token
    case "GET" => Ok(Get)
    case "POST" => Ok(Post)
    case "PUT" => Ok(Put)
    case "DELETE" => Ok(Delete)
    case "HEAD" => Ok(Head)
    case "OPTIONS" => Ok(Options)
    case "PATCH" => Ok(Patch)
    case _ => Err(UnsupportedMethod(token))
  }

  /**
   * `AsRef<str>` / `Display`, both derived with `serialize_all = "UPPERCASE"`: the
   * upper-case spelling of the variant, which `New` maps back to the variant.
   */
  function Name(m: SupportedMethod): (n: string)
    ensures 3 <= |n| <= 7
    ensures forall i :: 0 <= i < |n| ==> IsUpper(n[i])
  {
    match m
    case Get => "GET"
    case Post => "POST"
    case Put => "PUT"
    case Delete => "DELETE"
    case Head => "HEAD"
    case Options => "OPTIONS"
    case Patch => "PATCH"
  }

  /**
   * `request_has_body`, exactly as the source writes it: true for GET, DELETE, HEAD and
   * OPTIONS. The service skips the body when this is false, so it is POST, PUT and
   * PATCH whose bodies go unread (see `Service.ParseRequest`).
   */
  predicate RequestHasBody(m: SupportedMethod)
  {
    m == Get || m == Delete || m == Head || m == Options
  }

  /** `response_has_body`: true for HEAD only. */
  predicate ResponseHasBody(m: SupportedMethod)
  {
    m == Head
  }

  /** The names of `ms`, in order. */
  function Names(ms: seq<SupportedMethod>): (ns: seq<string>)
    ensures |ns| == |ms| && forall i :: 0 <= i < |ms| ==> ns[i] == Name(ms[i])
  {
    seq(|ms|, i requires 0 <= i < |ms| => Name(ms[i]))
  }

  /** `parts` with `sep` between neighbours, as `[T]::join` builds it. */
  function Join(parts: seq<string>, sep: string): string
  {
    if |parts| == 0 then "" else if |parts| == 1 then parts[0] else parts[0] + sep + Join(parts[1..], sep)
  }

  /** Name round trip: `new(name(m)) == Ok(m)` for every variant, so names are distinct. */
  lemma NameRoundTrip(m: SupportedMethod)
    ensures New(Name(m)) == Ok(m)
    ensures forall m' :: Name(m') == Name(m) ==> m' == m
  {
  }

  /** Tokens are case-sensitive: the lower-case spelling of every name is rejected. */
  lemma LowerCaseRejected(m: SupportedMethod)
    ensures New(ToLower(Name(m))) == Err(UnsupportedMethod(ToLower(Name(m))))
  {
    var lower := ToLower(Name(m));
    forall m' ensures Name(m') != lower {
      assert !IsUpper(lower[0]) && IsUpper(Name(m')[0]);
    }
  }

  /** Iteration yields each variant exactly once, in declaration (`Ord`) order. */
  lemma IterationOrder()
    ensures |AllMethods| == 7
    ensures forall m :: m in AllMethods
    ensures forall i :: 0 <= i < |AllMethods| ==> Ordinal(AllMethods[i]) == i
    ensures forall i, j :: 0 <= i < j < |AllMethods| ==> AllMethods[i] != AllMethods[j]
  {
    forall m ensures m in AllMethods {
      assert AllMethods[Ordinal(m)] == m;
    }
  }

  /** Joining a concatenation joins the two halves with one more separator. */
  lemma {:induction false} JoinAppend(xs: seq<string>, ys: seq<string>, sep: string)
    requires |xs| > 0 && |ys| > 0
    ensures Join(xs + ys, sep) == Join(xs, sep) + sep + Join(ys, sep)
  {
    if |xs| > 1 {
      assert (xs + ys)[1..] == xs[1..] + ys;
      JoinAppend(xs[1..], ys, sep);
    } else {
      assert (xs + ys)[1..] == ys;
    }
  }

  lemma NamesInOrder()
    ensures Names(AllMethods) == ["GET", "POST", "PUT"] + ["DELETE", "HEAD", "OPTIONS", "PATCH"]
  {
  }

  lemma JoinFront()
    ensures Join(["GET", "POST", "PUT"], ", ") == "GET, POST, PUT"
  {
    assert ["GET", "POST", "PUT"][1..] == ["POST", "PUT"];
    assert ["POST", "PUT"][1..] == ["PUT"];
  }

  lemma JoinBack()
    ensures Join(["DELETE", "HEAD", "OPTIONS", "PATCH"], ", ") == "DELETE, HEAD, OPTIONS, PATCH"
  {
    assert ["DELETE", "HEAD", "OPTIONS", "PATCH"][1..] == ["HEAD", "OPTIONS", "PATCH"];
    assert ["HEAD", "OPTIONS", "PATCH"][1..] == ["OPTIONS", "PATCH"];
    assert ["OPTIONS", "PATCH"][1..] == ["PATCH"];
  }

  /** `ALLOW_HEADER` is the names in iteration order joined by ", ". */
  lemma AllowHeaderIsJoinedNames()
    ensures Join(Names(AllMethods), ", ") == ALLOW_HEADER
  {
    NamesInOrder();
    JoinAppend(["GET", "POST", "PUT"], ["DELETE", "HEAD", "OPTIONS", "PATCH"], ", ");
    JoinFront();
    JoinBack();
  }

  /** The methods whose requests `RequestHasBody` selects, and the one response `ResponseHasBody` selects. */
  lemma BodyPredicates()
    ensures (set m | m in AllMethods && RequestHasBody(m)) == {Get, Delete, Head, Options}
    ensures (set m | m in AllMethods && !RequestHasBody(m)) == {Post, Put, Patch}
    ensures (set m | m in AllMethods && ResponseHasBody(m)) == {Head}
  {
  }
}
