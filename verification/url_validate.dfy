/**
 * `URLValidate` (src/util/URLValidate.ts): the link editor accepts a URL when
 * its scheme is one of six known prefixes (none stands for `https:`) and the
 * whole string matches the pattern of that scheme.
 *
 * Each regular expression is written as a predicate with the shape of the
 * expression: every `+`, `*`, `{m,n}` and optional group becomes a bound
 * variable saying where that part ends.  JavaScript compares code units and
 * these patterns only name ASCII characters and `\s`, so a Dafny `string`
 * (code points) accepts exactly what the expressions accept.
 */
module UrlValidate {
  import opened Ast

  /** The scheme prefixes of `protocolRegex`, in the order of its alternation. */
  datatype Scheme = Https | Http | Tg | Ton | Mailto | Tel

  function SchemeText(sc: Scheme): string
  {
    match sc
    case Https => "https:"
    case Http => "http:"
    case Tg => "tg:"
    case Ton => "ton:"
    case Mailto => "mailto:"
    case Tel => "tel:"
  }

  /** `url.match(protocolRegex)[0]`: the scheme prefix, if the URL starts with one. */
  function DetectScheme(url: string): (r: Option<Scheme>)
    ensures r.Some? ==> SchemeText(r.value) <= url
    ensures r.None? <==> forall sc: Scheme :: !(SchemeText(sc) <= url)
  {
    if SchemeText(Https) <= url then Some(Https)
    else if SchemeText(Http) <= url then Some(Http)
    else if SchemeText(Tg) <= url then Some(Tg)
    else if SchemeText(Ton) <= url then Some(Ton)
    else if SchemeText(Mailto) <= url then Some(Mailto)
    else if SchemeText(Tel) <= url then Some(Tel)
    else None
  }

  /** `url.includes('://')`. */
  predicate HasSeparator(url: string)
  {
    exists i | 0 <= i <= |url| - 3 :: url[i] == ':' && url[i + 1] == '/' && url[i + 2] == '/'
  }

  predicate IsDigit(c: char) { '0' <= c <= '9' }

  predicate IsLower(c: char) { 'a' <= c <= 'z' }

  predicate IsUpper(c: char) { 'A' <= c <= 'Z' }

  predicate IsAlnum(c: char) { IsDigit(c) || IsLower(c) || IsUpper(c) }

  /** `[\da-z.-]`, the host class. */
  predicate IsHostChar(c: char) { IsDigit(c) || IsLower(c) || c == '.' || c == '-' }

  /** `[a-z.]`, the top-level-domain class. */
  predicate IsTldChar(c: char) { IsLower(c) || c == '.' }

  /** `[/\w.-]`, the path class. */
  predicate IsPathChar(c: char) { IsAlnum(c) || c == '_' || c == '/' || c == '.' || c == '-' }

  predicate All(s: string, p: char -> bool)
  {
    forall i :: 0 <= i < |s| ==> p(s[i])
  }

  /** `(\?[^\s#]*)?(#\S*)?` matching all of `u`. */
  predicate QueryAndFragment(u: string)
  {
    exists j | 0 <= j <= |u| :: QueryAndFragmentAt(u, j)
  }

  /** The query is `u[..j]` and the fragment `u[j..]`. */
  predicate QueryAndFragmentAt(u: string, j: int)
  {
    0 <= j <= |u|
    && (j == 0 || (u[0] == '?' && All(u[1..j], c => !IsJsSpace(c) && c != '#')))
    && (j == |u| || (u[j] == '#' && All(u[j + 1..], c => !IsJsSpace(c))))
  }

  /**
   * `urlRegex` without its optional `https?://` group:
   * `([\da-z.-]+)\.([a-z.]{2,6})([/\w.-]*)*\/?` followed by query and fragment.
   * The repeated path group and the optional slash together match any run of
   * path characters.
   */
  predicate HttpBody(t: string)
  {
    exists k, m, i | 0 <= k < |t| && 0 <= m <= 6 && 0 <= i <= |t| :: HttpBodyAt(t, k, m, i)
  }

  /** The body match whose host ends at `k`, top-level domain has `m` characters and path ends at `i`. */
  predicate HttpBodyAt(t: string, k: int, m: int, i: int)
  {
    0 < k && 2 <= m <= 6 && k + 1 + m <= i <= |t|
    && All(t[..k], IsHostChar) && t[k] == '.' && All(t[k + 1..k + 1 + m], IsTldChar)
    && All(t[k + 1 + m..i], IsPathChar) && QueryAndFragment(t[i..])
  }

  /** `urlRegex.test(t)`. */
  predicate HttpPattern(t: string)
  {
    HttpBody(t)
    || ("http://" <= t && HttpBody(t[7..]))
    || ("https://" <= t && HttpBody(t[8..]))
  }

  /** `[a-zA-Z0-9?=]`. */
  predicate IsTgChar(c: char) { IsAlnum(c) || c == '?' || c == '=' }

  /** `tgTonRegex.test(t)`: `(tg|ton)://[a-zA-Z0-9?=]+`. */
  predicate TgTonPattern(t: string)
  {
    ("tg://" <= t && |t| > 5 && All(t[5..], IsTgChar))
    || ("ton://" <= t && |t| > 6 && All(t[6..], IsTgChar))
  }

  /** `mailtoRegex.test(t)`: `mailto:[a-zA-Z0-9._%+-]+@[a-zA-Z0-9.-]+\.[a-zA-Z]{2,}`. */
  predicate MailtoPattern(t: string)
  {
    exists at, dot | 0 <= at < |t| && 0 <= dot < |t| :: MailtoAt(t, at, dot)
  }

  /** The `mailto:` match with its `@` at `at` and the last dot at `dot`. */
  predicate MailtoAt(t: string, at: int, dot: int)
  {
    7 < at && at + 1 < dot && dot + 3 <= |t|
    && t[..7] == "mailto:"
    && All(t[7..at], c => IsAlnum(c) || c == '.' || c == '_' || c == '%' || c == '+' || c == '-')
    && t[at] == '@'
    && All(t[at + 1..dot], c => IsAlnum(c) || c == '.' || c == '-')
    && t[dot] == '.'
    && All(t[dot + 1..], c => IsLower(c) || IsUpper(c))
  }

  /** `telRegex.test(t)`: `tel:\+?[0-9]{1,3}[0-9]{4,14}`. */
  predicate TelPattern(t: string)
  {
    exists p, a, b | 0 <= p <= 1 && 0 <= a <= 3 && 0 <= b <= 14 :: TelAt(t, p, a, b)
  }

  /** The `tel:` match with `p` plus signs, `a` digits in the first group and `b` in the second. */
  predicate TelAt(t: string, p: int, a: int, b: int)
  {
    0 <= p <= 1 && 1 <= a <= 3 && 4 <= b <= 14 && |t| == 4 + p + a + b
    && t[..4] == "tel:" && (p == 1 ==> t[4] == '+')
    && All(t[4 + p..4 + p + a], IsDigit) && All(t[4 + p + a..], IsDigit)
  }

  /** `URLValidate(url)`. */
  function UrlValidate(url: string): (ok: bool)
    ensures DetectScheme(url).None? && HasSeparator(url) ==> !ok
    ensures DetectScheme(url).None? && !HasSeparator(url) ==> (ok <==> HttpPattern(url))
    ensures DetectScheme(url) == Some(Https) || DetectScheme(url) == Some(Http) ==> (ok <==> HttpPattern(url))
    ensures DetectScheme(url) == Some(Tg) || DetectScheme(url) == Some(Ton) ==> (ok <==> TgTonPattern(url))
    ensures DetectScheme(url) == Some(Mailto) ==> (ok <==> MailtoPattern(url))
    ensures DetectScheme(url) == Some(Tel) ==> (ok <==> TelPattern(url))
  {
    var protocol := DetectScheme(url);
    if protocol.None? && HasSeparator(url) then false
    else
      match (if protocol.Some? then protocol.value else Https)
      case Https => HttpPattern(url)
      case Http => HttpPattern(url)
      case Tg => TgTonPattern(url)
      case Ton => TgTonPattern(url)
      case Mailto => MailtoPattern(url)
      case Tel => TelPattern(url)
  }

  /** A URL that does not start with `http`… cannot take the optional scheme group. */
  lemma HttpPatternUnprefixed(t: string)
    requires !("http://" <= t) && !("https://" <= t)
    ensures HttpPattern(t) <==> HttpBody(t)
  {
  }

  /** The host run starts the body, so no body starts with `https:`. */
  lemma NoBodyAtScheme(t: string)
    requires "https://" <= t
    ensures !HttpBody(t)
  {
    forall k: int, m: int, i: int ensures !HttpBodyAt(t, k, m, i) {
      if 0 < k < |t| {
        if k > 5 {
          assert t[..k][5] == ':';
        } else {
          assert t[k] == "https://"[k];
        }
      }
    }
  }

  /** Without a scheme and without `://`, a URL is judged as if `https://` preceded it. */
  lemma DefaultProtocol(url: string)
    requires DetectScheme(url).None? && !HasSeparator(url)
    ensures UrlValidate(url) == UrlValidate("https://" + url)
  {
    var u := "https://" + url;
    assert "https://" <= u;
    assert DetectScheme(u) == Some(Https);
    assert u[8..] == url;
    assert !("http://" <= u) by {
      assert u[4] == 's';
    }
    NoBodyAtScheme(u);
    assert !("http://" <= url) && !("https://" <= url);
    HttpPatternUnprefixed(url);
  }

  /** A URL that contains `://` but starts with no known scheme is rejected. */
  lemma SeparatorWithoutScheme(url: string, i: nat)
    requires i + 3 <= |url| && url[i] == ':' && url[i + 1] == '/' && url[i + 2] == '/'
    requires forall sc: Scheme :: !(SchemeText(sc) <= url)
    ensures !UrlValidate(url)
  {
  }

  /** A bare host that starts with an upper-case letter is rejected. */
  lemma UppercaseHostRejected(url: string)
    requires |url| > 0 && IsUpper(url[0])
    ensures !UrlValidate(url)
  {
  }

  /** The `{2,6}` bound does not limit the top-level domain: the path group takes the rest. */
  lemma LongTopLevelDomainAccepted()
    ensures UrlValidate("a.abcdefghij")
  {
    var t := "a.abcdefghij";
    assert t[0] == 'a' && t[1] == '.';
    assert DetectScheme(t).None?;
    assert !HasSeparator(t) by {
      forall i | 0 <= i < |t| ensures t[i] != ':' {
      }
    }
    assert QueryAndFragmentAt(t[|t|..], 0);
    assert HttpBodyAt(t, 1, 2, |t|);
  }

  /** The digits of a `tel:` URL: after the scheme and one optional `+`. */
  function TelDigits(t: string): string
    requires |t| >= 4
  {
    if |t| > 4 && t[4] == '+' then t[5..] else t[4..]
  }

  /** `tel:` is accepted exactly with an optional `+` and then 5 to 17 digits. */
  lemma TelCharacterisation(t: string)
    requires |t| >= 4 && t[..4] == "tel:"
    ensures UrlValidate(t) <==> 5 <= |TelDigits(t)| <= 17 && All(TelDigits(t), IsDigit)
  {
    assert DetectScheme(t) == Some(Tel) by {
      assert "tel:" <= t;
      assert t[0] == 't' && t[1] == 'e';
    }
    if TelPattern(t) {
      var p: int, a: int, b: int :| TelAt(t, p, a, b);
      TelMatchDigits(t, p, a, b);
    }
    if 5 <= |TelDigits(t)| <= 17 && All(TelDigits(t), IsDigit) {
      TelDigitsMatch(t);
    }
  }

  lemma TelMatchDigits(t: string, p: int, a: int, b: int)
    requires TelAt(t, p, a, b)
    ensures 5 <= |TelDigits(t)| <= 17 && All(TelDigits(t), IsDigit)
  {
    var d := TelDigits(t);
    assert t[4 + p..4 + p + a][0] == t[4 + p];
    assert d == t[4 + p..];
    forall i | 0 <= i < |d| ensures IsDigit(d[i]) {
      if i < a {
        assert d[i] == t[4 + p..4 + p + a][i];
      } else {
        assert d[i] == t[4 + p + a..][i - a];
      }
    }
  }

  lemma TelDigitsMatch(t: string)
    requires |t| >= 4 && t[..4] == "tel:"
    requires 5 <= |TelDigits(t)| <= 17 && All(TelDigits(t), IsDigit)
    ensures TelPattern(t)
  {
    var d := TelDigits(t);
    var p := if |t| > 4 && t[4] == '+' then 1 else 0;
    assert d == t[4 + p..];
    var a := if |d| <= 15 then 1 else |d| - 14;
    var b := |d| - a;
    assert t[4 + p..4 + p + a] == d[..a];
    assert t[4 + p + a..] == d[a..];
    assert TelAt(t, p, a, b);
  }

  /** A `mailto:` URL holds exactly one `@`, the one that ends the local part. */
  lemma MailtoSingleAt(t: string)
    requires MailtoPattern(t)
    ensures exists i :: 7 < i < |t| && t[i] == '@' && forall j :: 0 <= j < |t| && j != i ==> t[j] != '@'
  {
    var sep: int, dot: int :| MailtoAt(t, sep, dot);
    assert MailtoAt(t, sep, dot);
    assert 7 < sep && sep + 1 < dot && dot + 3 <= |t|;
    forall j | 0 <= j < |t| && j != sep ensures t[j] != '@' {
      if j < 7 {
        assert t[j] == t[..7][j];
      } else if j < sep {
        assert t[j] == t[7..sep][j - 7];
      } else if j < dot {
        assert t[j] == t[sep + 1..dot][j - sep - 1];
      } else if j > dot {
        assert t[j] == t[dot + 1..][j - dot - 1];
      }
    }
  }
}
