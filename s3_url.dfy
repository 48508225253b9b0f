/** `ImageService.extractKeyFromS3Url`: recovering the object key from a stored image URL,
    first with the bucket-specific pattern, then by splitting on '/'. */
module S3Url {
  import opened JsText
  import opened ImageConfig
  import opened ImageService

  /** The bucket name read as part of `new RegExp(...)` at position `j` of `u`. The name is
      interpolated unescaped, so each '.' in it is the wildcard, matching any character but
      a line terminator; every other character of an S3 bucket name (letters, digits, '-')
      matches itself. */
  predicate BucketMatchesAt(bucket: string, u: string, j: nat) {
    && j + |bucket| <= |u|
    && forall t :: 0 <= t < |bucket| ==>
         if bucket[t] == '.' then !IsLineTerminator(u[j + t]) else u[j + t] == bucket[t]
  }

  /** The length of the longest prefix of `s` without a line terminator. */
  function LineRun(s: string): (n: nat)
    ensures n <= |s|
    ensures forall i :: 0 <= i < n ==> !IsLineTerminator(s[i])
    ensures n < |s| ==> IsLineTerminator(s[n])
    decreases |s|
  {
    if s == [] || IsLineTerminator(s[0]) then 0 else 1 + LineRun(s[1..])
  }

  const AmazonHost: string := ".amazonaws.com"

  /** A match of `https://<bucket>\.s3\.[^/]+\.amazonaws\.com/(.+)` at the start of `v`, and
      its group: the URL starts with the scheme, the bucket and ".s3.", and the group is what
      follows ".amazonaws.com/" further on. */
  function MatchHere(bucket: string, v: string): Option<string> {
    if !StartsWith(v, "https://") || !BucketMatchesAt(bucket, v, 8)
       || !StartsWith(v[8 + |bucket|..], ".s3.")
    then None
    else MatchAfterS3(v[8 + |bucket| + 4..])
  }

  /** A match at the start of `v` begins with the scheme, the bucket and ".s3.", and its
      group is non-empty, has no line terminator and follows ".amazonaws.com/" in `v`: it
      runs from just after the first '/' past ".s3." to the end of `v` or to the first line
      terminator. */
  lemma MatchHereShape(bucket: string, v: string)
    requires MatchHere(bucket, v).Some?
    ensures var k := MatchHere(bucket, v).value;
      && StartsWith(v, "https://") && BucketMatchesAt(bucket, v, 8)
      && StartsWith(v[8 + |bucket|..], ".s3.")
      && k != "" && !HasLineTerminator(k)
      && Includes(v, AmazonHost + "/" + k)
    ensures var k := MatchHere(bucket, v).value; var c := 8 + |bucket| + 4;
      && c <= |v|
      && var n := c + RunWithout(v[c..], '/');
      && '/' !in v[c..n]
      && n + 1 + |k| <= |v| && v[n + 1..n + 1 + |k|] == k
      && (n + 1 + |k| == |v| || IsLineTerminator(v[n + 1 + |k|]))
  {
    var c := 8 + |bucket| + 4;
    MatchAfterS3Shape(v[c..]);
    IncludesInSuffix(v, c, AmazonHost + "/" + MatchHere(bucket, v).value);
    MatchHereExtent(bucket, v);
  }

  /** Where the group of a match at the start of `v` lies in `v`. */
  lemma MatchHereExtent(bucket: string, v: string)
    requires MatchHere(bucket, v).Some?
    ensures var k := MatchHere(bucket, v).value; var c := 8 + |bucket| + 4;
      && c <= |v|
      && var n := c + RunWithout(v[c..], '/');
      && '/' !in v[c..n]
      && n + 1 + |k| <= |v| && v[n + 1..n + 1 + |k|] == k
      && (n + 1 + |k| == |v| || IsLineTerminator(v[n + 1 + |k|]))
  {
    var c := 8 + |bucket| + 4;
    MatchAfterS3Shape(v[c..]);
    GroupShifted(v, c, RunWithout(v[c..], '/'), MatchHere(bucket, v).value);
  }

  /** A '/'-free run of `n` characters, then a '/' and a group `k` that ends `v[c..]` or is
      followed by a line terminator, read off `v` itself from `c` on. */
  lemma GroupShifted(v: string, c: nat, n: nat, k: string)
    requires c <= |v|
    requires var x := v[c..];
      && n + 1 + |k| <= |x| && '/' !in x[..n] && x[n + 1..n + 1 + |k|] == k
      && (n + 1 + |k| == |x| || IsLineTerminator(x[n + 1 + |k|]))
    ensures var m := c + n;
      && m + 1 + |k| <= |v| && '/' !in v[c..m] && v[m + 1..m + 1 + |k|] == k
      && (m + 1 + |k| == |v| || IsLineTerminator(v[m + 1 + |k|]))
  {
    var x := v[c..];
    assert x[..n] == v[c..c + n];
    assert x[n + 1..n + 1 + |k|] == v[c + n + 1..c + n + 1 + |k|];
    if n + 1 + |k| < |x| {
      assert x[n + 1 + |k|] == v[c + n + 1 + |k|];
    }
  }

  /** The part `[^/]+\.amazonaws\.com/(.+)` of the pattern at the start of `x`. `[^/]+` cannot
      pass a '/', so the first '/' must be the one that follows ".amazonaws.com", with at least
      one character before that host; `(.+)` then takes every character up to the first line
      terminator, and at least one. */
  function MatchAfterS3(x: string): Option<string> {
    var n := RunWithout(x, '/');
    if n == |x| || !HostEndsAt(x, n) then None
    else
      var len := LineRun(x[n + 1..]);
      if len == 0 then None else Some(x[n + 1..][..len])
  }

  /** ".amazonaws.com" ends at position `n` of `x`, with at least one character before it. */
  predicate HostEndsAt(x: string, n: nat) {
    |AmazonHost| + 1 <= n <= |x| && x[n - |AmazonHost|..n] == AmazonHost
  }

  /** What `MatchAfterS3` reads is non-empty, has no line terminator and follows
      ".amazonaws.com/" in `x`, and no '/' comes before that host. The first '/' comes right
      after ".amazonaws.com", which has at least one character before it, and the greedy
      `(.+)` takes everything from just after that '/' up to the end of `x` or to the first
      line terminator. */
  lemma MatchAfterS3Shape(x: string)
    requires MatchAfterS3(x).Some?
    ensures var k := MatchAfterS3(x).value;
      && k != "" && !HasLineTerminator(k)
      && Includes(x, AmazonHost + "/" + k)
      && '/' !in x[..RunWithout(x, '/')]
    ensures var k := MatchAfterS3(x).value; var n := RunWithout(x, '/');
      && HostEndsAt(x, n)
      && n + 1 + |k| <= |x| && x[n + 1..n + 1 + |k|] == k
      && (n + 1 + |k| == |x| || IsLineTerminator(x[n + 1 + |k|]))
  {
    var n := RunWithout(x, '/');
    var len := LineRun(x[n + 1..]);
    assert MatchAfterS3(x) == Some(x[n + 1..][..len]);
    assert x[n + 1..][..len] == x[n + 1..n + 1 + len];
    HostThenGroup(x, n, len);
    LineRunIsClean(x[n + 1..]);
    RunWithoutIsClean(x, '/');
    if n + 1 + len < |x| {
      assert x[n + 1..][len] == x[n + 1 + len];
    }
  }

  /** The run `LineRun` measures holds no line terminator. */
  lemma LineRunIsClean(s: string)
    ensures !HasLineTerminator(s[..LineRun(s)])
  {
    var k := s[..LineRun(s)];
    forall j | 0 <= j < |k| ensures !IsLineTerminator(k[j]) {
      assert k[j] == s[j];
    }
  }

  /** The run `RunWithout` measures holds no `c`. */
  lemma RunWithoutIsClean(s: string, c: char)
    ensures c !in s[..RunWithout(s, c)]
  {
    var k := s[..RunWithout(s, c)];
    forall j | 0 <= j < |k| ensures k[j] != c {
      assert k[j] == s[j];
    }
  }

  /** The host, a '/' and the `len` characters after it, read off `x` around position `n`. */
  lemma HostThenGroup(x: string, n: nat, len: nat)
    requires |AmazonHost| <= n < |x| && n + 1 + len <= |x|
    requires x[n - |AmazonHost|..n] == AmazonHost && x[n] == '/'
    ensures Includes(x, AmazonHost + "/" + x[n + 1..n + 1 + len])
  {
    var h := n - |AmazonHost|;
    var w := AmazonHost + "/" + x[n + 1..n + 1 + len];
    assert x[n..n + 1] == "/";
    SliceConcat(x, h, n, n + 1);
    SliceConcat(x, h, n + 1, n + 1 + len);
    assert x[h..h + |w|] == w;
    IncludesAt(x, w, h);
  }

  /** `url.match(pattern)` with an unanchored pattern: the match at the leftmost position
      from `i` on where there is one, and no result exactly when there is none. */
  function FirstMatch(bucket: string, u: string, i: nat): Option<string>
    requires i <= |u|
    decreases |u| - i
  {
    var here := MatchHere(bucket, u[i..]);
    if here.Some? then here
    else if i == |u| then None
    else FirstMatch(bucket, u, i + 1)
  }

  /** `FirstMatch` finds nothing exactly when no position from `i` on matches. */
  lemma {:induction false} FirstMatchNone(bucket: string, u: string, i: nat)
    requires i <= |u|
    ensures FirstMatch(bucket, u, i).None? <==>
      forall j :: i <= j <= |u| ==> MatchHere(bucket, u[j..]).None?
    decreases |u| - i
  {
    var here := MatchHere(bucket, u[i..]);
    if here.None? && i < |u| {
      FirstMatchNone(bucket, u, i + 1);
      assert FirstMatch(bucket, u, i) == FirstMatch(bucket, u, i + 1);
      if FirstMatch(bucket, u, i).None? {
        forall j | i <= j <= |u| ensures MatchHere(bucket, u[j..]).None? {
          if j == i {
            assert MatchHere(bucket, u[j..]) == here;
          }
        }
      }
    }
  }

  /** A result of `FirstMatch` is the match at some position from `i` on, and no earlier
      position from `i` on matches. */
  lemma {:induction false} FirstMatchIsLeftmost(bucket: string, u: string, i: nat) returns (j: nat)
    requires i <= |u| && FirstMatch(bucket, u, i).Some?
    ensures i <= j <= |u| && MatchHere(bucket, u[j..]) == FirstMatch(bucket, u, i)
    ensures forall k :: i <= k < j ==> MatchHere(bucket, u[k..]).None?
    decreases |u| - i
  {
    var here := MatchHere(bucket, u[i..]);
    if here.Some? {
      j := i;
    } else {
      assert FirstMatch(bucket, u, i) == FirstMatch(bucket, u, i + 1);
      j := FirstMatchIsLeftmost(bucket, u, i + 1);
      forall k | i <= k < j ensures MatchHere(bucket, u[k..]).None? {
        if k == i {
          assert MatchHere(bucket, u[k..]) == here;
        }
      }
    }
  }

  /** `parts.findIndex(part => part.includes(sub))` */
  function FirstIndexIncluding(parts: seq<string>, sub: string): (i: int)
    ensures -1 <= i < |parts|
    ensures i >= 0 ==> Includes(parts[i], sub)
    ensures forall j :: 0 <= j < |parts| && (i < 0 || j < i) ==> !Includes(parts[j], sub)
    decreases |parts|
  {
    if parts == [] then -1
    else if Includes(parts[0], sub) then 0
    else
      var r := FirstIndexIncluding(parts[1..], sub);
      if r < 0 then -1 else r + 1
  }

  /** The second method: the '/'-separated parts after the first part that contains
      "amazonaws.com", joined again; null when there is no such part or it is the last. */
  function FallbackKey(u: string): (r: Option<string>)
    ensures r.None? <==>
      forall j :: 0 <= j < |Split(u, '/')| - 1 ==> !Includes(Split(u, '/')[j], "amazonaws.com")
  {
    var parts := Split(u, '/');
    var idx := FirstIndexIncluding(parts, "amazonaws.com");
    if idx != -1 && idx < |parts| - 1 then
      assert 0 <= idx < |Split(u, '/')| - 1 && Includes(Split(u, '/')[idx], "amazonaws.com");
      Some(Join(parts[idx + 1..], '/'))
    else None
  }

  /** `extractKeyFromS3Url(url)`. Every failure is a null result: a missing or empty URL, one
      without "amazonaws.com", and one neither method can read. Nothing in it throws. */
  function ExtractKeyFromS3Url(cfg: Config, url: Option<string>): (key: Option<string>)
    ensures url.None? || !Includes(url.value, "amazonaws.com") ==> key.None?
    ensures url.Some? && Includes(url.value, "amazonaws.com") ==>
      && (FirstMatch(cfg.bucket, url.value, 0).Some? ==> key == FirstMatch(cfg.bucket, url.value, 0))
      && (FirstMatch(cfg.bucket, url.value, 0).None? ==> key == FallbackKey(url.value))
  {
    if url.None? || url.value == "" || !Includes(url.value, "amazonaws.com") then None
    else
      match FirstMatch(cfg.bucket, url.value, 0)
      case Some(k) => Some(k)
      case None => FallbackKey(url.value)
  }

  /** The run without `c` stops at the first `c`. */
  lemma {:induction false} RunWithoutStops(a: string, t: string, c: char)
    requires c !in a && t != [] && t[0] == c
    ensures RunWithout(a + t, c) == |a|
    decreases |a|
  {
    if a == [] {
      assert a + t == t;
    } else {
      assert (a + t)[1..] == a[1..] + t;
      RunWithoutStops(a[1..], t, c);
    }
  }

  /** A run without line terminators followed by a line terminator, or by nothing, is read
      whole. */
  lemma {:induction false} LineRunStops(a: string, t: string)
    requires !HasLineTerminator(a)
    requires t == [] || IsLineTerminator(t[0])
    ensures LineRun(a + t) == |a|
    decreases |a|
  {
    if a == [] {
      assert a + t == t;
    } else {
      assert (a + t)[1..] == a[1..] + t;
      assert !HasLineTerminator(a[1..]) by {
        forall i | 0 <= i < |a[1..]| ensures !IsLineTerminator(a[1..][i]) {
          assert a[1..][i] == a[i + 1];
        }
      }
      LineRunStops(a[1..], t);
    }
  }

  /** The URL `generateImageUrl` builds contains "amazonaws.com". */
  lemma UrlMentionsAmazon(cfg: Config, key: string)
    ensures Includes(UrlFor(cfg, key), "amazonaws.com")
  {
    var a := "https://" + cfg.bucket + ".s3." + cfg.region + ".";
    assert UrlFor(cfg, key) == a + "amazonaws.com" + ("/" + key);
    assert StartsWith("amazonaws.com", "amazonaws.com");
    IncludesInfix(a, "amazonaws.com", "/" + key, "amazonaws.com");
  }

  /** Converse of `MatchHereShape`: the bucket pattern matches any text made of the scheme,
      the bucket (each '.' in it standing for any character but a line terminator), ".s3.",
      a non-empty region without '/', ".amazonaws.com/", a non-empty key without line
      terminators and a tail that is empty or starts with a line terminator; its group is
      exactly the key. */
  lemma MatchHereReads(bucket: string, v: string, region: string, key: string, tail: string)
    requires StartsWith(v, "https://") && BucketMatchesAt(bucket, v, 8)
    requires v[8 + |bucket|..] == ".s3." + region + AmazonHost + "/" + key + tail
    requires region != "" && '/' !in region
    requires key != "" && !HasLineTerminator(key)
    requires tail == [] || IsLineTerminator(tail[0])
    ensures MatchHere(bucket, v) == Some(key)
  {
    var c := 8 + |bucket|;
    assert v[c..][..4] == ".s3.";
    assert v[c + 4..] == (region + AmazonHost) + ("/" + (key + tail));
    AfterS3Reads(region, key, tail);
  }

  /** The bucket pattern matches the URL `generateImageUrl` builds at its very start, and
      its group is the whole key. */
  lemma PatternReadsGeneratedUrl(cfg: Config, key: string)
    requires key != "" && !HasLineTerminator(key)
    requires cfg.region != "" && '/' !in cfg.region
    ensures MatchHere(cfg.bucket, UrlFor(cfg, key)) == Some(key)
  {
    GeneratedUrlHead(cfg, key);
    assert key + "" == key;
    AfterS3Reads(cfg.region, key, "");
  }

  /** The URL starts with the scheme, the bucket and ".s3.", and the region, host and key
      follow. */
  lemma GeneratedUrlHead(cfg: Config, key: string)
    ensures var v, b := UrlFor(cfg, key), cfg.bucket;
      && StartsWith(v, "https://") && BucketMatchesAt(b, v, 8)
      && StartsWith(v[8 + |b|..], ".s3.")
      && v[8 + |b| + 4..] == (cfg.region + AmazonHost) + ("/" + key)
  {
    var b, r := cfg.bucket, cfg.region;
    var v := UrlFor(cfg, key);
    assert v == "https://" + b + ".s3." + r + ".amazonaws.com/" + key;
    assert v[..8] == "https://";
    assert BucketMatchesAt(b, v, 8) by {
      forall t | 0 <= t < |b| ensures v[8 + t] == b[t] {
      }
    }
    assert v[8 + |b|..][..4] == ".s3.";
  }

  /** After ".s3.", a region without '/' and the host end at the first '/', and the key
      after it is read up to the line terminator that starts the tail, if any. */
  lemma AfterS3Reads(r: string, key: string, tail: string)
    requires key != "" && !HasLineTerminator(key)
    requires r != "" && '/' !in r
    requires tail == [] || IsLineTerminator(tail[0])
    ensures MatchAfterS3((r + AmazonHost) + ("/" + (key + tail))) == Some(key)
  {
    var x := (r + AmazonHost) + ("/" + (key + tail));
    assert '/' !in r + AmazonHost by {
      assert forall i :: 0 <= i < |AmazonHost| ==> AmazonHost[i] != '/';
    }
    RunWithoutStops(r + AmazonHost, "/" + (key + tail), '/');
    var n := |r| + |AmazonHost|;
    assert x[n - |AmazonHost|..n] == AmazonHost;
    assert x[n + 1..] == key + tail;
    LineRunStops(key, tail);
    assert (key + tail)[..|key|] == key;
  }

  /** Round trip: the key is read back from the URL built for it, provided the key is
      non-empty and holds no line terminator and the region is non-empty without '/'. */
  lemma ExtractAfterGenerate(cfg: Config, key: string)
    requires key != "" && !HasLineTerminator(key)
    requires cfg.region != "" && '/' !in cfg.region
    ensures ExtractKeyFromS3Url(cfg, GenerateImageUrl(cfg, Some(key))) == Some(key)
  {
    var u := UrlFor(cfg, key);
    UrlMentionsAmazon(cfg, key);
    PatternReadsGeneratedUrl(cfg, key);
    assert u[0..] == u;
  }

  /** What the bucket pattern returns is what follows ".amazonaws.com/" somewhere in the
      URL: non-empty and without line terminators. */
  lemma PatternKeyFollowsHost(bucket: string, u: string, i: nat)
    requires i <= |u| && FirstMatch(bucket, u, i).Some?
    ensures var k := FirstMatch(bucket, u, i).value;
      k != "" && !HasLineTerminator(k) && Includes(u, AmazonHost + "/" + k)
  {
    var k := FirstMatch(bucket, u, i).value;
    var j := FirstMatchIsLeftmost(bucket, u, i);
    MatchHereShape(bucket, u[j..]);
    IncludesInSuffix(u, j, AmazonHost + "/" + k);
  }

  /** The second method cuts the URL at the '/' that ends its first part containing
      "amazonaws.com": the key is everything after that '/'. */
  lemma FallbackCutsAfterHostPart(u: string) returns (pre: string)
    requires FallbackKey(u).Some?
    ensures u == pre + "/" + FallbackKey(u).value
    ensures var segs := Split(pre, '/');
      Includes(segs[|segs| - 1], "amazonaws.com")
      && forall j :: 0 <= j < |segs| - 1 ==> !Includes(segs[j], "amazonaws.com")
  {
    var parts := Split(u, '/');
    var idx := FirstIndexIncluding(parts, "amazonaws.com");
    var head, tail := parts[..idx + 1], parts[idx + 1..];
    assert FallbackKey(u).value == Join(tail, '/');
    pre := Join(head, '/');
    JoinSplit(u, '/');
    assert parts == head + tail;
    JoinAppend(head, tail, '/');
    assert forall j :: 0 <= j < |head| ==> head[j] == parts[j];
    SplitJoin(head, '/');
  }
}
