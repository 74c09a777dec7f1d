/**
 * Client-side security helpers: input sanitising, the Content Security
 * Policy header value, and a sliding-window rate limiter.
 */
module Security {
  import opened Wrappers
  import Text

  // ---------------------------------------------------------------------------
  // sanitizeInput

  /**
   * The characters `String.prototype.trim` removes: the ECMAScript WhiteSpace
   * and LineTerminator code points.
   */
  predicate IsTrimmable(c: char) {
    c == '\t' || c == '\n' || c == '\U{000B}' || c == '\U{000C}' || c == '\r' || c == ' '
    || c == '\U{00A0}' || c == '\U{1680}' || ('\U{2000}' <= c <= '\U{200A}')
    || c == '\U{2028}' || c == '\U{2029}' || c == '\U{202F}' || c == '\U{205F}'
    || c == '\U{3000}' || c == '\U{FEFF}'
  }

  /** Longest accepted input, in characters. */
  const MAX_INPUT_LENGTH: nat := 1000

  /** `.replace(/[<>]/g, '')`: every other character, in order. */
  function StripAngleBrackets(s: string): (r: string)
    ensures |r| <= |s|
    ensures forall c :: c in r <==> c in s && c != '<' && c != '>'
    ensures ('<' !in s && '>' !in s) ==> r == s
  {
    if s == [] then []
    else (if s[0] == '<' || s[0] == '>' then [] else [s[0]]) + StripAngleBrackets(s[1..])
  }

  /**
   * The filter works character by character: stripping a concatenation is the
   * concatenation of the stripped parts, and one character is kept exactly
   * when it is not an angle bracket. Together these fix the order and the
   * repeats of the kept characters.
   */
  lemma {:induction false} StripAngleBracketsAppend(a: string, b: string)
    ensures StripAngleBrackets(a + b) == StripAngleBrackets(a) + StripAngleBrackets(b)
  {
    if a != [] {
      var c, rest := a[0], a[1..];
      assert a == [c] + rest;
      assert a + b == [c] + (rest + b);
      StripAngleBracketsCons(c, rest);
      StripAngleBracketsCons(c, rest + b);
      StripAngleBracketsAppend(rest, b);
    } else {
      assert a + b == b;
    }
  }

  /** One unfolding of the replace at the first character. */
  lemma StripAngleBracketsCons(c: char, rest: string)
    ensures StripAngleBrackets([c] + rest) == (if c == '<' || c == '>' then [] else [c]) + StripAngleBrackets(rest)
  {
    assert ([c] + rest)[0] == c && ([c] + rest)[1..] == rest;
  }

  /** A single character is kept exactly when it is not an angle bracket. */
  lemma StripAngleBracketsOne(c: char)
    ensures StripAngleBrackets([c]) == if c == '<' || c == '>' then [] else [c]
  {
    assert [c][1..] == [];
  }

  /** Drop leading trimmable characters: the result is the suffix that starts at the first other one. */
  function TrimStart(s: string): (r: string)
    ensures |r| <= |s| && r == s[|s| - |r|..]
    ensures forall k :: 0 <= k < |s| - |r| ==> IsTrimmable(s[k])
    ensures r == [] || !IsTrimmable(r[0])
  {
    if s != [] && IsTrimmable(s[0]) then TrimStart(s[1..]) else s
  }

  /** Drop trailing trimmable characters: the result is the prefix that ends at the last other one. */
  function TrimEnd(s: string): (r: string)
    ensures |r| <= |s| && r == s[..|r|]
    ensures forall k :: |r| <= k < |s| ==> IsTrimmable(s[k])
    ensures r == [] || !IsTrimmable(r[|r| - 1])
  {
    if s != [] && IsTrimmable(s[|s| - 1]) then TrimEnd(s[..|s| - 1]) else s
  }

  /** `.trim()`: the input without its trimmable ends; neither end of the result is trimmable. */
  function Trim(s: string): (r: string)
    ensures |r| <= |s|
    ensures r == [] || (!IsTrimmable(r[0]) && !IsTrimmable(r[|r| - 1]))
    ensures (s == [] || (!IsTrimmable(s[0]) && !IsTrimmable(s[|s| - 1]))) ==> r == s
  {
    var t := TrimStart(s);
    var r := TrimEnd(t);
    assert r != [] ==> r[0] == t[0];
    r
  }

  /**
   * What `.trim()` removes: the result is a slice `s[a..b]` of the input, and
   * everything cut from either end is trimmable. With `Trim`'s own ensures
   * (neither end of the result is trimmable) this fixes the result.
   */
  lemma TrimCutsEnds(s: string)
    ensures exists a, b ::
      (&& 0 <= a <= b <= |s| && Trim(s) == s[a..b]
       && (forall k :: 0 <= k < a ==> IsTrimmable(s[k]))
       && (forall k :: b <= k < |s| ==> IsTrimmable(s[k])))
  {
    TrimUnfold(s);
    CutEnds(s, TrimStart(s), TrimEnd(TrimStart(s)));
  }

  /** `Trim` is `TrimEnd` after `TrimStart`. */
  lemma TrimUnfold(s: string)
    ensures Trim(s) == TrimEnd(TrimStart(s))
  {
  }

  /**
   * A prefix `r` of a suffix `t` of `s`, where `t` cuts only trimmable
   * characters from the front of `s` and `r` only from the back of `t`, is a
   * slice of `s` with only trimmable characters cut on either side.
   */
  lemma CutEnds(s: string, t: string, r: string)
    requires |t| <= |s| && t == s[|s| - |t|..]
    requires forall k :: 0 <= k < |s| - |t| ==> IsTrimmable(s[k])
    requires |r| <= |t| && r == t[..|r|]
    requires forall k :: |r| <= k < |t| ==> IsTrimmable(t[k])
    ensures exists a, b ::
      (&& 0 <= a <= b <= |s| && r == s[a..b]
       && (forall k :: 0 <= k < a ==> IsTrimmable(s[k]))
       && (forall k :: b <= k < |s| ==> IsTrimmable(s[k])))
  {
    var a := |s| - |t|;
    var b := a + |r|;
    PrefixOfSuffix(s, t, r);
    forall k | b <= k < |s| ensures IsTrimmable(s[k]) {
      assert s[k] == t[k - a];
    }
    assert r == s[a..b];
  }

  /** A prefix `r` of a suffix `t` of `s` is the slice of `s` that starts where `t` does. */
  lemma PrefixOfSuffix(s: string, t: string, r: string)
    requires |t| <= |s| && t == s[|s| - |t|..]
    requires |r| <= |t| && r == t[..|r|]
    ensures |s| - |t| + |r| <= |s| && r == s[|s| - |t|..|s| - |t| + |r|]
  {
  }

  /** `.slice(0, 1000)` */
  function Truncate(s: string, n: nat): (r: string)
    ensures r <= s && |r| == if |s| <= n then |s| else n
  {
    if |s| <= n then s else s[..n]
  }

  /** `sanitizeInput`: remove angle brackets, trim, keep at most 1000 characters. */
  function SanitizeInput(input: string): (r: string)
    ensures '<' !in r && '>' !in r
    ensures |r| <= MAX_INPUT_LENGTH
    ensures r <= Trim(StripAngleBrackets(input))
    ensures |r| == if |Trim(StripAngleBrackets(input))| <= MAX_INPUT_LENGTH
                   then |Trim(StripAngleBrackets(input))| else MAX_INPUT_LENGTH
  {
    var cleaned := Trim(StripAngleBrackets(input));
    var r := Truncate(cleaned, MAX_INPUT_LENGTH);
    assert forall c :: c in r ==> c in cleaned;
    assert forall c :: c in cleaned ==> c in StripAngleBrackets(input) by {
      var x := StripAngleBrackets(input);
      var t := TrimStart(x);
      assert forall c :: c in cleaned ==> c in t;
      assert forall c :: c in t ==> c in x;
    }
    r
  }

  /** Input that is already clean (no angle brackets, trimmed, short enough) comes back unchanged. */
  lemma SanitizeInputClean(input: string)
    requires '<' !in input && '>' !in input
    requires input == [] || (!IsTrimmable(input[0]) && !IsTrimmable(input[|input| - 1]))
    requires |input| <= MAX_INPUT_LENGTH
    ensures SanitizeInput(input) == input
  {
  }

  // ---------------------------------------------------------------------------
  // Content Security Policy

  /** One policy directive: its name and its source expressions, in order. */
  datatype Directive = Directive(name: string, sources: seq<string>)

  /** `.filter(Boolean)` on strings: drop the empty ones, keep the rest in order. */
  function FilterNonEmpty(s: seq<string>): (r: seq<string>)
    ensures "" !in r
    ensures forall x :: x in r <==> x in s && x != ""
    ensures "" !in s ==> r == s
  {
    if s == [] then []
    else (if s[0] == "" then [] else [s[0]]) + FilterNonEmpty(s[1..])
  }

  /** `filter(Boolean)` distributes over concatenation and keeps a single string exactly when it is non-empty. */
  lemma {:induction false} FilterNonEmptyAppend(a: seq<string>, b: seq<string>)
    ensures FilterNonEmpty(a + b) == FilterNonEmpty(a) + FilterNonEmpty(b)
  {
    if a != [] {
      var x, rest := a[0], a[1..];
      assert a == [x] + rest;
      assert a + b == [x] + (rest + b);
      FilterNonEmptyCons(x, rest);
      FilterNonEmptyCons(x, rest + b);
      FilterNonEmptyAppend(rest, b);
    } else {
      assert a + b == b;
    }
  }

  /** One unfolding of the filter at the first source. */
  lemma FilterNonEmptyCons(x: string, rest: seq<string>)
    ensures FilterNonEmpty([x] + rest) == (if x == "" then [] else [x]) + FilterNonEmpty(rest)
  {
    assert ([x] + rest)[0] == x && ([x] + rest)[1..] == rest;
  }

  /** A single source is kept exactly when it is non-empty. */
  lemma FilterNonEmptyOne(x: string)
    ensures FilterNonEmpty([x]) == if x == "" then [] else [x]
  {
    assert [x][1..] == [];
  }

  /**
   * `CSP_DIRECTIVES` in declaration order, which is the order
   * `Object.entries` returns. `isDevelopment` stands for
   * `process.env.NODE_ENV === 'development'`.
   */
  function CspDirectives(isDevelopment: bool): (r: seq<Directive>)
    ensures |r| == 9
    ensures forall i, j :: 0 <= i < j < |r| ==> r[i].name != r[j].name
    ensures forall i, k :: 0 <= i < |r| && 0 <= k < |r[i].sources| ==> r[i].sources[k] != ""
  {
    [ Directive("default-src", ["'self'"]),
      Directive("script-src", FilterNonEmpty(["'self'", "'unsafe-eval'", if isDevelopment then "'unsafe-inline'" else ""])),
      Directive("style-src", ["'self'", "'unsafe-inline'"]),
      Directive("img-src", ["'self'", "data:", "https:"]),
      Directive("font-src", ["'self'", "https:", "data:"]),
      Directive("connect-src", ["'self'"]),
      Directive("frame-ancestors", ["'none'"]),
      Directive("base-uri", ["'self'"]),
      Directive("form-action", ["'self'"]) ]
  }

  /** The script sources: `'unsafe-inline'` only in development, and never an empty source. */
  lemma ScriptSources(isDevelopment: bool)
    ensures CspDirectives(isDevelopment)[1].name == "script-src"
    ensures CspDirectives(isDevelopment)[1].sources
         == ["'self'", "'unsafe-eval'"] + (if isDevelopment then ["'unsafe-inline'"] else [])
    ensures "" !in CspDirectives(isDevelopment)[1].sources
  {
    var s := ["'self'", "'unsafe-eval'", if isDevelopment then "'unsafe-inline'" else ""];
    assert FilterNonEmpty(s[2..]) == if isDevelopment then ["'unsafe-inline'"] else [];
    assert FilterNonEmpty(s[1..]) == [s[1]] + FilterNonEmpty(s[2..]);
  }

  /** Only `script-src` depends on the environment; every other directive is the same in development and production. */
  lemma CspOnlyScriptDiffers(i: nat)
    requires i < 9 && i != 1
    ensures CspDirectives(true)[i] == CspDirectives(false)[i]
  {
  }

  /** `${directive} ${sources.join(' ')}` */
  function RenderDirective(d: Directive): (r: string)
    ensures |r| >= |d.name| + 1
    ensures r[..|d.name| + 1] == d.name + " "
    ensures r[|d.name| + 1..] == Text.Join(" ", d.sources)
  {
    var r := d.name + " " + Text.Join(" ", d.sources);
    assert r[..|d.name| + 1] == d.name + " ";
    r
  }

  function RenderAll(ds: seq<Directive>): seq<string>
  {
    seq(|ds|, i requires 0 <= i < |ds| => RenderDirective(ds[i]))
  }

  /** `generateCSP`, over any directive list. */
  function GenerateCSP(ds: seq<Directive>): (r: string)
    ensures ds == [] ==> r == ""
    ensures ds != [] ==> |RenderDirective(ds[0])| <= |r| && r[..|RenderDirective(ds[0])|] == RenderDirective(ds[0])
    ensures |ds| == 1 ==> r == RenderDirective(ds[0])
  {
    var parts := RenderAll(ds);
    var r := Text.Join("; ", parts);
    assert |parts| > 1 ==> r == parts[0] + "; " + Text.Join("; ", parts[1..]);
    r
  }

  /**
   * The header follows the declared order: directive `i` starts at
   * `Offset("; ", ...)`, reads as its name, a space and its sources joined by spaces, and
   * every directive but the last is followed by "; ".
   */
  lemma GenerateCSPLayout(ds: seq<Directive>, i: nat)
    requires i < |ds|
    ensures var parts := RenderAll(ds);
      var at := Text.Offset("; ", parts, i);
      && at + |parts[i]| <= |GenerateCSP(ds)|
      && GenerateCSP(ds)[at..at + |parts[i]|] == ds[i].name + " " + Text.Join(" ", ds[i].sources)
      && (i + 1 < |ds| ==>
            at + |parts[i]| + 2 <= |GenerateCSP(ds)|
            && GenerateCSP(ds)[at + |parts[i]|..at + |parts[i]| + 2] == "; ")
  {
    var parts := RenderAll(ds);
    GenerateCSPUnfold(ds);
    Text.JoinLayout("; ", parts, i);
    assert parts[i] == RenderDirective(ds[i]) == ds[i].name + " " + Text.Join(" ", ds[i].sources);
  }

  /** The header is the rendered directives joined by "; ". */
  lemma GenerateCSPUnfold(ds: seq<Directive>)
    ensures GenerateCSP(ds) == Text.Join("; ", RenderAll(ds))
  {
  }

  /** The header ends with its last directive: nothing, not even "; ", follows it. */
  lemma GenerateCSPLength(ds: seq<Directive>)
    requires ds != []
    ensures |GenerateCSP(ds)| == Text.Offset("; ", RenderAll(ds), |ds| - 1) + |RenderDirective(ds[|ds| - 1])|
  {
    Text.JoinLength("; ", RenderAll(ds));
  }

  /** Inside a directive, source `k` stands at its own place after the name and a space. */
  lemma RenderDirectiveLayout(d: Directive, k: nat)
    requires k < |d.sources|
    ensures var at := |d.name| + 1 + Text.Offset(" ", d.sources, k);
      && at + |d.sources[k]| <= |RenderDirective(d)|
      && RenderDirective(d)[at..at + |d.sources[k]|] == d.sources[k]
      && RenderDirective(d)[..|d.name| + 1] == d.name + " "
  {
    Text.JoinLayout(" ", d.sources, k);
    var prefix := d.name + " ";
    var joined := Text.Join(" ", d.sources);
    assert RenderDirective(d) == prefix + joined;
    var o := Text.Offset(" ", d.sources, k);
    assert (prefix + joined)[|prefix| + o..|prefix| + o + |d.sources[k]|] == joined[o..o + |d.sources[k]|];
  }

  // ---------------------------------------------------------------------------
  // RateLimiter

  /** `timestamps.filter(ts => ts > windowStart)`: the requests inside the window, in order. */
  function InWindow(history: seq<int>, windowStart: int): (r: seq<int>)
    ensures |r| <= |history|
    ensures forall t :: t in r <==> t in history && t > windowStart
  {
    if history == [] then []
    else
      var last := history[|history| - 1];
      InWindow(history[..|history| - 1], windowStart) + (if last > windowStart then [last] else [])
  }

  /**
   * The filter works request by request: filtering a concatenation is the
   * concatenation of the filtered parts, and a single request is kept exactly
   * when it is after the window start. Together these fix which stored times
   * survive, in their order and with their repeats.
   */
  lemma {:induction false} InWindowAppend(a: seq<int>, b: seq<int>, windowStart: int)
    ensures InWindow(a + b, windowStart) == InWindow(a, windowStart) + InWindow(b, windowStart)
    decreases |b|
  {
    if b == [] {
      assert a + b == a;
    } else {
      var n := |b| - 1;
      InWindowAppend(a, b[..n], windowStart);
      var last := b[n];
      var tail := if last > windowStart then [last] else [];
      assert (a + b)[..|a + b| - 1] == a + b[..n] && (a + b)[|a + b| - 1] == last;
      assert InWindow(a + b, windowStart) == InWindow(a + b[..n], windowStart) + tail;
      assert InWindow(b, windowStart) == InWindow(b[..n], windowStart) + tail;
    }
  }

  lemma InWindowOne(t: int, windowStart: int)
    ensures InWindow([t], windowStart) == if t > windowStart then [t] else []
  {
    assert [t][..0] == [];
  }

  /** The positions of `history` whose request is inside the window. */
  function InWindowPositions(history: seq<int>, windowStart: int): set<nat> {
    set i: nat | i < |history| && history[i] > windowStart
  }

  /** The filtered list has one entry per stored request strictly after the window start. */
  lemma {:induction false} InWindowCount(history: seq<int>, windowStart: int)
    ensures |InWindow(history, windowStart)| == |InWindowPositions(history, windowStart)|
  {
    if history != [] {
      var n := |history| - 1;
      var init := history[..n];
      InWindowCount(init, windowStart);
      var before := InWindowPositions(init, windowStart);
      var after := InWindowPositions(history, windowStart);
      var added: set<nat> := if history[n] > windowStart then {n} else {};
      forall i: nat | i in after ensures i in before + added {
        if i < n {
          assert history[i] == init[i];
        }
      }
      forall i: nat | i in before + added ensures i in after {
        if i < n {
          assert history[i] == init[i];
        }
      }
      assert after == before + added;
      assert n !in before;
    }
  }

  /**
   * One `canMakeRequest` decision on the identifier's stored requests: `None`
   * when the window is full, otherwise the entry to store, which is the
   * in-window requests followed by `now`.
   */
  function Admit(history: seq<int>, maxRequests: int, windowMs: int, now: int): (r: Option<seq<int>>)
    ensures r.None? <==> |InWindow(history, now - windowMs)| >= maxRequests
    ensures r.Some? ==> |r.value| >= 1
    ensures r.Some? ==> r.value[|r.value| - 1] == now
    ensures r.Some? ==> r.value[..|r.value| - 1] == InWindow(history, now - windowMs)
  {
    var recent := InWindow(history, now - windowMs);
    assert (recent + [now])[..|recent|] == recent;
    if |recent| >= maxRequests then None else Some(recent + [now])
  }

  /**
   * A request is admitted exactly when fewer than `maxRequests` stored
   * requests lie strictly after `now - windowMs`; the stored entry then holds
   * those requests followed by `now`, no more than `maxRequests` of them.
   */
  lemma AdmitSpec(history: seq<int>, maxRequests: int, windowMs: int, now: int)
    ensures Admit(history, maxRequests, windowMs, now).Some?
        <==> |InWindowPositions(history, now - windowMs)| < maxRequests
    ensures Admit(history, maxRequests, windowMs, now).Some? ==>
      var entry := Admit(history, maxRequests, windowMs, now).value;
      && |entry| <= maxRequests
      && entry[|entry| - 1] == now
      && (forall t :: t in entry[..|entry| - 1] <==> t in history && t > now - windowMs)
  {
    InWindowCount(history, now - windowMs);
    var recent := InWindow(history, now - windowMs);
    assert (recent + [now])[..|recent|] == recent;
  }

  /** `n` copies of `t`. */
  function Repeat(t: int, n: nat): (r: seq<int>)
    ensures |r| == n && forall i :: 0 <= i < n ==> r[i] == t
  {
    if n == 0 then [] else Repeat(t, n - 1) + [t]
  }

  /** The answers to `k` calls for one identifier, all at the same instant, starting from `history`. */
  function Burst(history: seq<int>, maxRequests: int, windowMs: int, now: int, k: nat): (r: seq<bool>)
    ensures |r| == k
    decreases k
  {
    if k == 0 then []
    else match Admit(history, maxRequests, windowMs, now)
      case None => [false] + Burst(history, maxRequests, windowMs, now, k - 1)
      case Some(entry) => [true] + Burst(entry, maxRequests, windowMs, now, k - 1)
  }

  lemma {:induction false} InWindowAllRecent(t: int, n: nat, windowStart: int)
    requires t > windowStart
    ensures InWindow(Repeat(t, n), windowStart) == Repeat(t, n)
  {
    if n > 0 {
      InWindowAllRecent(t, n - 1, windowStart);
      assert Repeat(t, n)[..n - 1] == Repeat(t, n - 1);
    }
  }

  /**
   * With a frozen clock and `j` requests already stored at that instant, call
   * number `i` of a burst of `k` is admitted exactly when `j + i < maxRequests`.
   */
  lemma {:induction false} BurstAtFixedTime(maxRequests: int, windowMs: int, now: int, j: nat, k: nat, i: nat)
    requires windowMs > 0
    requires i < k
    ensures Burst(Repeat(now, j), maxRequests, windowMs, now, k)[i] == (j + i < maxRequests)
    decreases i
  {
    AdmitAtFixedTime(maxRequests, windowMs, now, j);
    BurstStep(Repeat(now, j), maxRequests, windowMs, now, k);
    if i > 0 {
      var next := if j >= maxRequests then j else j + 1;
      BurstAtFixedTime(maxRequests, windowMs, now, next, k - 1, i - 1);
    }
  }

  /** The first answer of a burst, then the rest of the burst from the updated (or unchanged) entry. */
  lemma BurstStep(history: seq<int>, maxRequests: int, windowMs: int, now: int, k: nat)
    requires k > 0
    ensures var a := Admit(history, maxRequests, windowMs, now);
      Burst(history, maxRequests, windowMs, now, k)
        == [a.Some?] + Burst(a.GetOr(history), maxRequests, windowMs, now, k - 1)
  {
  }

  /** One call with `j` requests stored at the current instant: admitted iff `j < maxRequests`, and then `j + 1` are stored. */
  lemma AdmitAtFixedTime(maxRequests: int, windowMs: int, now: int, j: nat)
    requires windowMs > 0
    ensures Admit(Repeat(now, j), maxRequests, windowMs, now)
         == if j >= maxRequests then None else Some(Repeat(now, j + 1))
  {
    InWindowAllRecent(now, j, now - windowMs);
    assert Repeat(now, j) + [now] == Repeat(now, j + 1);
  }

  /** With the defaults (10 requests per 60000 ms) and a frozen clock, the first ten calls pass and the eleventh is refused. */
  lemma EleventhCallRefused(now: int)
    ensures forall i :: 0 <= i < 10 ==> Burst([], DEFAULT_MAX_REQUESTS, DEFAULT_WINDOW_MS, now, 11)[i]
    ensures !Burst([], DEFAULT_MAX_REQUESTS, DEFAULT_WINDOW_MS, now, 11)[10]
  {
    assert Repeat(now, 0) == [];
    forall i | 0 <= i < 11 ensures Burst([], DEFAULT_MAX_REQUESTS, DEFAULT_WINDOW_MS, now, 11)[i] == (i < 10) {
      BurstAtFixedTime(DEFAULT_MAX_REQUESTS, DEFAULT_WINDOW_MS, now, 0, 11, i);
    }
  }

  const DEFAULT_MAX_REQUESTS: int := 10
  const DEFAULT_WINDOW_MS: int := 60000

  /**
   * The limiter: per identifier, the times of its admitted requests. The
   * clock reading `now` is passed in.
   */
  class RateLimiter {
    const maxRequests: int
    const windowMs: int
    var timestamps: map<string, seq<int>>

    /** No stored entry ever holds more than `maxRequests` requests. */
    ghost predicate Valid()
      reads this
    {
      forall id :: id in timestamps ==> |timestamps[id]| <= maxRequests
    }

    function History(identifier: string): seq<int>
      reads this
    {
      if identifier in timestamps then timestamps[identifier] else []
    }

    constructor (maxRequests: int := DEFAULT_MAX_REQUESTS, windowMs: int := DEFAULT_WINDOW_MS)
      ensures Valid()
      ensures this.maxRequests == maxRequests && this.windowMs == windowMs
      ensures timestamps == map[]
    {
      this.maxRequests := maxRequests;
      this.windowMs := windowMs;
      timestamps := map[];
    }

    /**
     * `canMakeRequest`: refused calls leave every entry as it was (stale
     * requests are not pruned); admitted calls replace the identifier's entry
     * by its in-window requests plus `now` and leave the other identifiers alone.
     */
    method CanMakeRequest(identifier: string, now: int) returns (allowed: bool)
      requires Valid()
      modifies this
      ensures Valid()
      ensures allowed == Admit(old(History(identifier)), maxRequests, windowMs, now).Some?
      ensures allowed == (|InWindowPositions(old(History(identifier)), now - windowMs)| < maxRequests)
      ensures !allowed ==> timestamps == old(timestamps)
      ensures allowed ==>
        timestamps == old(timestamps)[identifier := InWindow(old(History(identifier)), now - windowMs) + [now]]
      ensures allowed ==> |timestamps[identifier]| <= maxRequests
      ensures forall other :: other != identifier ==> History(other) == old(History(other))
    {
      AdmitSpec(History(identifier), maxRequests, windowMs, now);
      var windowStart := now - windowMs;
      var recentTimestamps := InWindow(History(identifier), windowStart);
      if |recentTimestamps| >= maxRequests {
        return false;
      }
      recentTimestamps := recentTimestamps + [now];
      timestamps := timestamps[identifier := recentTimestamps];
      return true;
    }
  }
}
