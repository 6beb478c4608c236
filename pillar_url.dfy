/**
 The URL rewrite that the `susesaltpillar` row callback applies to a pillar
 blob: every leftmost, non-overlapping match of the regular expression
 `https://[^/]+/os-images/` is replaced by `https://{SERVER_FQDN}/os-images/`.

 The expression is fixed, so instead of a regular-expression engine this
 module scans the bytes by hand. `[^/]+` cannot contain a slash and must be
 followed by one, so at any position there is at most one match: the host
 runs up to the first slash after the scheme.
 */
module PillarUrl {
  import opened Schema

  type Bytes = seq<bv8>

  const Slash: bv8 := 0x2f
  /** "https://" */
  const Scheme: Bytes := [0x68, 0x74, 0x74, 0x70, 0x73, 0x3a, 0x2f, 0x2f]
  /** "/os-images/" */
  const OsImages: Bytes := [0x2f, 0x6f, 0x73, 0x2d, 0x69, 0x6d, 0x61, 0x67, 0x65, 0x73, 0x2f]
  /** "{SERVER_FQDN}" */
  const Placeholder: Bytes := [0x7b, 0x53, 0x45, 0x52, 0x56, 0x45, 0x52, 0x5f, 0x46, 0x51, 0x44, 0x4e, 0x7d]
  /** "https://{SERVER_FQDN}/os-images/" */
  const Replacement: Bytes := Scheme + Placeholder + OsImages

  /** `t[..n]` is matched by `https://[^/]+/os-images/`: the scheme, a
      non-empty host without a slash, then the fixed path segment. */
  ghost predicate IsMatch(t: Bytes, n: nat)
  {
    && |Scheme| + 1 + |OsImages| <= n <= |t|
    && t[..|Scheme|] == Scheme
    && (forall k :: |Scheme| <= k < n - |OsImages| ==> t[k] != Slash)
    && t[n - |OsImages|..n] == OsImages
  }

  /** The first slash at or after position `i`, if any. */
  function SlashFrom(t: Bytes, i: nat): (j: Option<nat>)
    requires i <= |t|
    ensures j.Some? ==> i <= j.value < |t| && t[j.value] == Slash
    ensures j.Some? ==> forall k :: i <= k < j.value ==> t[k] != Slash
    ensures j.None? ==> forall k :: i <= k < |t| ==> t[k] != Slash
    decreases |t| - i
  {
    if i == |t| then None
    else if t[i] == Slash then Some(i)
    else SlashFrom(t, i + 1)
  }

  /** A match's host ends at the first slash after the scheme. */
  lemma MatchEndsAtFirstSlash(t: Bytes, n: nat)
    requires IsMatch(t, n)
    ensures SlashFrom(t, |Scheme|) == Some(n - |OsImages|)
  {
    assert t[n - |OsImages|..n][0] == t[n - |OsImages|];
  }

  /** The length of the match that starts at the beginning of `t`, if one
      does: exactly the lengths `IsMatch` admits. */
  function MatchLength(t: Bytes): (r: Option<nat>)
    ensures r.Some? ==> IsMatch(t, r.value)
    ensures r.None? ==> forall n: nat :: !IsMatch(t, n)
  {
    if |t| < |Scheme| || t[..|Scheme|] != Scheme then None
    else
      assert forall n: nat :: IsMatch(t, n) ==> SlashFrom(t, |Scheme|) == Some(n - |OsImages|) by {
        forall n: nat | IsMatch(t, n) ensures SlashFrom(t, |Scheme|) == Some(n - |OsImages|) {
          MatchEndsAtFirstSlash(t, n);
        }
      }
      match SlashFrom(t, |Scheme|)
      case None => None
      case Some(j) =>
        if |Scheme| < j && j + |OsImages| <= |t| && t[j..j + |OsImages|] == OsImages then
          Some(j + |OsImages|)
        else
          None
  }

  /** Byte facts about the fixed literals that the proofs below rely on. */
  lemma LiteralFacts()
    ensures forall i :: 0 < i < |Scheme| ==> Scheme[i] != 0x68
    ensures forall i :: 0 <= i < |OsImages| ==> OsImages[i] != 0x68
    ensures OsImages[0] == Slash && OsImages[1] != Slash
    ensures |Replacement| == 32 && Replacement[0] == 0x68
    ensures forall i :: 0 < i < |Replacement| ==> Replacement[i] != 0x68
    ensures forall i :: 0 <= i < 6 ==> Replacement[i] != Slash
    ensures Replacement[6] == Slash && Replacement[7] == Slash
  {
    forall i | 0 < i < |Replacement| ensures Replacement[i] != 0x68 {
      if i < 8 { assert Replacement[i] == Scheme[i]; }
      else if i < 21 { assert Replacement[i] == Placeholder[i - 8]; }
      else { assert Replacement[i] == OsImages[i - 21]; }
    }
  }

  /** The bytes a match covers, position by position. */
  lemma MatchBytes(t: Bytes, n: nat)
    requires IsMatch(t, n)
    ensures forall k :: 0 <= k < |Scheme| ==> t[k] == Scheme[k]
    ensures forall k :: n - |OsImages| <= k < n ==> t[k] == OsImages[k - (n - |OsImages|)]
  {
    forall k | 0 <= k < |Scheme| ensures t[k] == Scheme[k] {
      assert t[..|Scheme|][k] == t[k];
    }
    forall k | n - |OsImages| <= k < n ensures t[k] == OsImages[k - (n - |OsImages|)] {
      assert t[n - |OsImages|..n][k - (n - |OsImages|)] == t[k];
    }
  }

  /** A match is determined by where it starts. */
  lemma MatchUnique(t: Bytes, a: nat, b: nat)
    requires IsMatch(t, a) && IsMatch(t, b)
    ensures a == b
  {
    MatchBytes(t, a);
    MatchBytes(t, b);
    assert t[a - |OsImages|] == Slash && t[b - |OsImages|] == Slash;
  }

  /** Whether a match covers a prefix depends only on the bytes it covers. */
  lemma MatchIsLocal(t: Bytes, u: Bytes, n: nat)
    requires IsMatch(t, n)
    requires n <= |u| && u[..n] == t[..n]
    ensures IsMatch(u, n)
  {
    assert u[..|Scheme|] == u[..n][..|Scheme|] == t[..n][..|Scheme|] == t[..|Scheme|];
    assert u[n - |OsImages|..n] == u[..n][n - |OsImages|..] == t[..n][n - |OsImages|..] == t[n - |OsImages|..n];
    forall k | |Scheme| <= k < n - |OsImages| ensures u[k] != Slash {
      assert u[k] == u[..n][k] == t[..n][k] == t[k];
    }
  }

  /** No byte is an 'h', so no match can start anywhere. */
  predicate WithoutScheme(s: Bytes)
  {
    forall i :: 0 <= i < |s| ==> s[i] != 0x68
  }

  /** Rewrites every leftmost, non-overlapping match, copying every other
      byte. */
  function Rewrite(s: Bytes): (r: Bytes)
    ensures r == [] <==> s == []
    ensures WithoutScheme(s) ==> r == s
    decreases |s|
  {
    if s == [] then []
    else match MatchLength(s)
      case Some(n) =>
        MatchBytes(s, n);
        Replacement + Rewrite(s[n..])
      case None => [s[0]] + Rewrite(s[1..])
  }

  /** The start of the leftmost match in `s`, or `|s|` when there is none. */
  function FirstMatch(s: Bytes): (k: nat)
    ensures k <= |s|
    ensures forall i {:trigger MatchLength(s[i..])} :: 0 <= i < k ==> MatchLength(s[i..]).None?
    ensures k < |s| ==> MatchLength(s[k..]).Some?
    decreases |s|
  {
    if s == [] || MatchLength(s).Some? then 0
    else
      var k := 1 + FirstMatch(s[1..]);
      assert s[0..] == s;
      assert forall i :: 1 <= i <= |s| ==> s[i..] == s[1..][i - 1..];
      k
  }

  /** Bytes before the first match are copied unchanged and in order. */
  lemma {:induction false} CopiesUpToMatch(s: Bytes, k: nat)
    requires k <= |s|
    requires forall i {:trigger MatchLength(s[i..])} :: 0 <= i < k ==> MatchLength(s[i..]).None?
    ensures Rewrite(s) == s[..k] + Rewrite(s[k..])
    decreases k
  {
    if k > 0 {
      var u := s[1..];
      assert s[0..] == s;
      assert MatchLength(s[0..]).None?;
      CopiesFirstByte(s);
      forall i | 0 <= i < k - 1 ensures MatchLength(u[i..]).None? {
        assert u[i..] == s[i + 1..];
      }
      CopiesUpToMatch(u, k - 1);
      assert u[k - 1..] == s[k..];
      assert s[..k] == [s[0]] + u[..k - 1];
      ConcatAssociative([s[0]], u[..k - 1], Rewrite(s[k..]));
    }
  }

  /** A byte where no match starts is copied, and the scan moves on by one. */
  lemma CopiesFirstByte(s: Bytes)
    requires s != [] && MatchLength(s).None?
    ensures Rewrite(s) == [s[0]] + Rewrite(s[1..])
  {
  }

  /** Input without any match is returned unchanged. */
  lemma NoMatchUnchanged(s: Bytes)
    requires forall i {:trigger MatchLength(s[i..])} :: 0 <= i < |s| ==> MatchLength(s[i..]).None?
    ensures Rewrite(s) == s
  {
    CopiesUpToMatch(s, |s|);
    assert s[..|s|] == s;
  }

  /** The rewrite splits at the leftmost match: the bytes before it are
      copied, the match becomes the replacement, and the scan resumes after
      it. */
  lemma RewriteAtFirstMatch(s: Bytes, k: nat, n: nat)
    requires k < |s| && MatchLength(s[k..]) == Some(n)
    requires forall i {:trigger MatchLength(s[i..])} :: 0 <= i < k ==> MatchLength(s[i..]).None?
    ensures k + n <= |s|
    ensures Rewrite(s) == s[..k] + Replacement + Rewrite(s[k + n..])
  {
    CopiesUpToMatch(s, k);
    RewriteAtMatch(s[k..], n);
    assert s[k..][n..] == s[k + n..];
    ConcatAssociative(s[..k], Replacement, Rewrite(s[k + n..]));
  }

  lemma ConcatAssociative(a: Bytes, b: Bytes, c: Bytes)
    ensures a + (b + c) == a + b + c
  {
  }

  /** A match at the start becomes the replacement, and the scan resumes
      after it. */
  lemma RewriteAtMatch(t: Bytes, n: nat)
    requires MatchLength(t) == Some(n)
    ensures n <= |t| && Rewrite(t) == Replacement + Rewrite(t[n..])
  {
  }

  /** A URL with any host, preceded by bytes where no match starts, is
      rewritten to the placeholder host, and the scan goes on after it. */
  lemma RewritesUrl(x: Bytes, host: Bytes, y: Bytes)
    requires host != [] && forall k :: 0 <= k < |host| ==> host[k] != Slash
    requires forall i {:trigger MatchLength((x + Scheme + host + OsImages + y)[i..])} :: 0 <= i < |x| ==> MatchLength((x + Scheme + host + OsImages + y)[i..]).None?
    ensures Rewrite(x + Scheme + host + OsImages + y) == x + Replacement + Rewrite(y)
  {
    var s := x + Scheme + host + OsImages + y;
    var n := |Scheme| + |host| + |OsImages|;
    assert s[|x|..] == Scheme + host + OsImages + y;
    UrlMatches(host, y);
    RewriteAtFirstMatch(s, |x|, n);
    assert s[..|x|] == x;
    assert s[|x| + n..] == y;
  }

  /** "old-host.example" */
  const ExampleHost: Bytes := [0x6f, 0x6c, 0x64, 0x2d, 0x68, 0x6f, 0x73, 0x74, 0x2e, 0x65, 0x78, 0x61, 0x6d, 0x70, 0x6c, 0x65]
  /** "foo.raw" */
  const ExampleFile: Bytes := [0x66, 0x6f, 0x6f, 0x2e, 0x72, 0x61, 0x77]

  /** "https://old-host.example/os-images/foo.raw" becomes
      "https://{SERVER_FQDN}/os-images/foo.raw". */
  lemma RewritesExampleUrl()
    ensures Rewrite(Scheme + ExampleHost + OsImages + ExampleFile) == Replacement + ExampleFile
  {
    var u := Scheme + ExampleHost + OsImages + ExampleFile;
    var n := |Scheme| + |ExampleHost| + |OsImages|;
    ExampleHostHasNoSlash();
    UrlMatches(ExampleHost, ExampleFile);
    RewriteAtMatch(u, n);
    assert u[n..] == ExampleFile;
    ExampleFileUnchanged();
  }

  lemma ExampleFileUnchanged()
    ensures Rewrite(ExampleFile) == ExampleFile
  {
    assert WithoutScheme(ExampleFile);
  }

  lemma ExampleHostHasNoSlash()
    ensures ExampleHost != [] && forall k :: 0 <= k < |ExampleHost| ==> ExampleHost[k] != Slash
  {
  }

  /** A URL with a non-empty host without a slash is a match that covers it. */
  lemma UrlMatches(host: Bytes, y: Bytes)
    requires host != [] && forall k :: 0 <= k < |host| ==> host[k] != Slash
    ensures MatchLength(Scheme + host + OsImages + y) == Some(|Scheme| + |host| + |OsImages|)
  {
    var t := Scheme + host + OsImages + y;
    var n := |Scheme| + |host| + |OsImages|;
    assert t[..|Scheme|] == Scheme;
    assert t[n - |OsImages|..n] == OsImages;
    forall k | |Scheme| <= k < n - |OsImages| ensures t[k] != Slash {
      assert t[k] == host[k - |Scheme|];
    }
    assert IsMatch(t, n);
    MatchUnique(t, n, MatchLength(t).value);
  }

  /** The replacement is itself a match that covers exactly itself. */
  lemma ReplacementMatches(y: Bytes)
    ensures MatchLength(Replacement + y) == Some(|Replacement|)
  {
    var t := Replacement + y;
    var n := |Replacement|;
    assert t[..|Scheme|] == Scheme;
    assert t[n - |OsImages|..n] == OsImages;
    forall k | |Scheme| <= k < n - |OsImages| ensures t[k] != Slash {
      assert t[k] == Placeholder[k - |Scheme|];
    }
    assert IsMatch(t, n);
    MatchUnique(t, n, MatchLength(t).value);
  }

  /** No match starts strictly inside the replacement: its only 'h' is its
      first byte. */
  lemma NoMatchInsideReplacement(y: Bytes, p: nat, n: nat)
    requires 0 < p < |Replacement|
    ensures !IsMatch((Replacement + y)[p..], n)
  {
    var t := (Replacement + y)[p..];
    if IsMatch(t, n) {
      MatchBytes(t, n);
    }
    LiteralFacts();
    assert t[0] == Replacement[p];
  }

  /** A match that starts before a copy of the replacement ends before it. */
  lemma MatchStopsBeforeReplacement(t: Bytes, b: nat, n: nat)
    requires 0 < b && b + |Replacement| <= |t|
    requires forall k :: b <= k < b + |Replacement| ==> t[k] == Replacement[k - b]
    requires IsMatch(t, n)
    ensures n <= b
  {
    LiteralFacts();
    MatchBytes(t, n);
    var e := n - |OsImages|;
    assert t[b] == 0x68;
    assert t[b + 6] == Slash && t[b + 7] == Slash;
    assert t[e] == Slash && t[e + 1] == OsImages[1];
  }

  /** When no match starts in `s` before `k`, no match in the output starts
      inside the copied bytes `s[..k]`. */
  lemma NoMatchInCopiedPrefix(s: Bytes, k: nat, rest: Bytes, p: nat, n: nat)
    requires p < k <= |s|
    requires forall i {:trigger MatchLength(s[i..])} :: 0 <= i < k ==> MatchLength(s[i..]).None?
    ensures !IsMatch((s[..k] + Replacement + rest)[p..], n)
  {
    var t := (s[..k] + Replacement + rest)[p..];
    var b := k - p;
    forall j | b <= j < b + |Replacement| ensures t[j] == Replacement[j - b] {
      assert t[j] == (s[..k] + Replacement + rest)[p + j];
    }
    assert MatchLength(s[p..]).None?;
    if IsMatch(t, n) {
      MatchStopsBeforeReplacement(t, b, n);
      assert t[..n] == s[p..][..n];
      MatchIsLocal(t, s[p..], n);
      assert false;
    }
  }

  /** Every match that starts in `r` covers exactly the placeholder URL. */
  ghost predicate OnlyPlaceholderUrls(r: Bytes)
  {
    forall p: nat, n: nat :: p <= |r| && IsMatch(r[p..], n) ==> r[p..p + n] == Replacement
  }

  /** Copied bytes without a match, then the replacement, then output that
      holds only placeholder URLs, hold only placeholder URLs. */
  lemma OnlyPlaceholderUrlsAppend(s: Bytes, k: nat, rest: Bytes)
    requires k <= |s|
    requires forall i {:trigger MatchLength(s[i..])} :: 0 <= i < k ==> MatchLength(s[i..]).None?
    requires OnlyPlaceholderUrls(rest)
    ensures OnlyPlaceholderUrls(s[..k] + Replacement + rest)
  {
    var r := s[..k] + Replacement + rest;
    forall p: nat, n: nat | p <= |r| && IsMatch(r[p..], n) ensures r[p..p + n] == Replacement {
      if p < k {
        NoMatchInCopiedPrefix(s, k, rest, p, n);
        assert false;
      } else if p == k {
        assert r[p..] == Replacement + rest;
        ReplacementMatches(rest);
        MatchUnique(r[p..], n, |Replacement|);
        assert r[p..p + n] == (Replacement + rest)[..n];
      } else if p < k + |Replacement| {
        assert r[p..] == (Replacement + rest)[p - k..];
        NoMatchInsideReplacement(rest, p - k, n);
        assert false;
      } else {
        var q := p - k - |Replacement|;
        assert r[p..] == rest[q..];
        assert r[p..p + n] == rest[q..q + n];
      }
    }
  }

  /** Every match left in the output is the placeholder URL: the rewrite is
      exhaustive, so no `https://<host>/os-images/` with another host
      survives. */
  lemma {:induction false} OnlyPlaceholderUrlsRemain(s: Bytes)
    ensures OnlyPlaceholderUrls(Rewrite(s))
    decreases |s|
  {
    var k := FirstMatch(s);
    if k == |s| {
      NoMatchUnchanged(s);
      forall p: nat, n: nat | p <= |s| ensures !IsMatch(s[p..], n) {
        assert MatchLength(s[p..]).None?;
      }
    } else {
      var m := MatchLength(s[k..]).value;
      RewriteAtFirstMatch(s, k, m);
      OnlyPlaceholderUrlsRemain(s[k + m..]);
      OnlyPlaceholderUrlsAppend(s, k, Rewrite(s[k + m..]));
    }
  }

  /** A suffix of output that holds only placeholder URLs holds only
      placeholder URLs. */
  lemma OnlyPlaceholderUrlsSuffix(r: Bytes, d: nat)
    requires d <= |r|
    requires OnlyPlaceholderUrls(r)
    ensures OnlyPlaceholderUrls(r[d..])
  {
    var u := r[d..];
    forall p: nat, n: nat | p <= |u| && IsMatch(u[p..], n) ensures u[p..p + n] == Replacement {
      assert u[p..] == r[d + p..];
      assert u[p..p + n] == r[d + p..d + p + n];
    }
  }

  /** Bytes whose every match is the placeholder URL are left as they are. */
  lemma {:induction false} PlaceholderUrlsFixed(r: Bytes)
    requires OnlyPlaceholderUrls(r)
    ensures Rewrite(r) == r
    decreases |r|
  {
    var k := FirstMatch(r);
    if k == |r| {
      NoMatchUnchanged(r);
    } else {
      var m := MatchLength(r[k..]).value;
      RewriteAtFirstMatch(r, k, m);
      FirstMatchIsPlaceholder(r, k, m);
      OnlyPlaceholderUrlsSuffix(r, k + m);
      PlaceholderUrlsFixed(r[k + m..]);
      SplitAround(r, k, k + m);
    }
  }

  /** In output that holds only placeholder URLs, the match at `k` is the
      placeholder URL. */
  lemma FirstMatchIsPlaceholder(r: Bytes, k: nat, m: nat)
    requires k <= |r| && MatchLength(r[k..]) == Some(m)
    requires OnlyPlaceholderUrls(r)
    ensures k + m <= |r| && r[k..k + m] == Replacement
  {
    assert IsMatch(r[k..], m);
  }

  lemma SplitAround(r: Bytes, i: nat, j: nat)
    requires i <= j <= |r|
    ensures r == r[..i] + r[i..j] + r[j..]
  {
  }

  /** Rewriting is idempotent: a second pass finds only placeholder URLs,
      which it leaves alone. */
  lemma RewriteIdempotent(s: Bytes)
    ensures Rewrite(Rewrite(s)) == Rewrite(s)
  {
    OnlyPlaceholderUrlsRemain(s);
    PlaceholderUrlsFixed(Rewrite(s));
  }
}
