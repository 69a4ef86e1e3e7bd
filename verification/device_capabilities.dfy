/** Device capability detection for the hero scene: whether the browser
    looks like a phone or tablet, whether to treat it as low-performance,
    and the device-pixel ratio to render at.

    The browser's `navigator` and `window` are not read here: their values
    arrive as a `Signals` record. */
module DeviceCapabilities {
  import opened Wrappers

  /** What the browser reports. `hardwareConcurrency` is absent in browsers
      that do not expose it. */
  datatype Signals = Signals(userAgent: string, hardwareConcurrency: Option<nat>,
                             devicePixelRatio: real)

  datatype Capabilities = Capabilities(isMobile: bool, isLowPerformance: bool, pixelRatio: real)

  /** The state before the first check runs: a desktop at ratio 1. */
  const Initial := Capabilities(false, false, 1.0)

  /** The alternatives of the user-agent pattern, in order. */
  const DeviceTokens: seq<string> :=
    ["Android", "webOS", "iPhone", "iPad", "iPod", "BlackBerry", "IEMobile", "Opera Mini"]

  /** Pixel-ratio ceilings for the two performance tiers. */
  const LowPerformanceRatioCap: real := 1.5
  const RatioCap: real := 2.0

  /** Logical processors at or below which a device counts as
      low-performance. */
  const LowCoreCount: nat := 4

  /** Case folding for the pattern's `i` flag. Every alternative is ASCII,
      and the folding never maps a non-ASCII character onto an ASCII one, so
      only ASCII letters need folding. */
  function Fold(c: char): (u: char)
    ensures ('a' <= c <= 'z') ==> u as int == c as int - 32
    ensures !('a' <= c <= 'z') ==> u == c
  {
    if 'a' <= c <= 'z' then (c as int - 32) as char else c
  }

  predicate SameIgnoringCase(c: char, d: char) {
    Fold(c) == Fold(d)
  }

  /** `token` occurs in `s` at position `i`, ignoring case. */
  predicate OccursAt(s: string, token: string, i: nat) {
    i + |token| <= |s| && forall j :: 0 <= j < |token| ==> SameIgnoringCase(s[i + j], token[j])
  }

  /** `token` occurs somewhere in `s`, ignoring case. */
  ghost predicate Contains(s: string, token: string) {
    exists i: nat :: OccursAt(s, token, i)
  }

  /** The unanchored pattern test: some alternative occurs in `userAgent`. */
  ghost predicate LooksMobile(userAgent: string) {
    exists k :: 0 <= k < |DeviceTokens| && Contains(userAgent, DeviceTokens[k])
  }

  /** Whether `token` matches at `i`, compared character by character. */
  function MatchesAt(s: string, token: string, i: nat): (r: bool)
    ensures r <==> OccursAt(s, token, i)
  {
    if i + |token| > |s| then false
    else MatchesFrom(s, token, i, 0)
  }

  function MatchesFrom(s: string, token: string, i: nat, j: nat): (r: bool)
    requires i + |token| <= |s| && j <= |token|
    ensures r <==> forall m :: j <= m < |token| ==> SameIgnoringCase(s[i + m], token[m])
    decreases |token| - j
  {
    if j == |token| then true
    else SameIgnoringCase(s[i + j], token[j]) && MatchesFrom(s, token, i, j + 1)
  }

  /** Scans the start positions from `i` on for an occurrence of `token`. */
  function Search(s: string, token: string, i: nat): (r: bool)
    ensures r <==> exists p: nat :: i <= p && OccursAt(s, token, p)
    decreases |s| + 1 - i
  {
    if i + |token| > |s| then
      assert forall p: nat :: i <= p ==> !OccursAt(s, token, p);
      false
    else if MatchesAt(s, token, i) then true
    else
      var r := Search(s, token, i + 1);
      assert forall p: nat :: i <= p && OccursAt(s, token, p) ==> i + 1 <= p;
      r
  }

  /** Tries the alternatives from index `k` on. */
  function AnyTokenFrom(userAgent: string, k: nat): (r: bool)
    requires k <= |DeviceTokens|
    ensures r <==> exists m :: k <= m < |DeviceTokens| && Contains(userAgent, DeviceTokens[m])
    decreases |DeviceTokens| - k
  {
    if k == |DeviceTokens| then false
    else Search(userAgent, DeviceTokens[k], 0) || AnyTokenFrom(userAgent, k + 1)
  }

  /** The user-agent test of `checkCapabilities`. */
  function IsMobileAgent(userAgent: string): (r: bool)
    ensures r <==> LooksMobile(userAgent)
  {
    AnyTokenFrom(userAgent, 0)
  }

  /** `checkCapabilities`: a mobile agent, or one with at most four logical
      processors, is low-performance; an absent processor count does not
      count as low. The pixel ratio is the device's, capped at 1.5 on
      low-performance devices and at 2 otherwise. */
  function CheckCapabilities(sig: Signals): (caps: Capabilities)
    ensures caps.isMobile <==> LooksMobile(sig.userAgent)
    ensures caps.isLowPerformance <==>
              caps.isMobile || (sig.hardwareConcurrency.Some? && sig.hardwareConcurrency.value <= 4)
    ensures caps.pixelRatio <= sig.devicePixelRatio
    ensures caps.pixelRatio <= (if caps.isLowPerformance then 1.5 else 2.0)
    ensures caps.pixelRatio == sig.devicePixelRatio
         || caps.pixelRatio == (if caps.isLowPerformance then 1.5 else 2.0)
  {
    var isMobile := IsMobileAgent(sig.userAgent);
    var isLow := isMobile || match sig.hardwareConcurrency
      case None => false
      case Some(n) => n <= LowCoreCount;
    var cap := if isLow then LowPerformanceRatioCap else RatioCap;
    Capabilities(isMobile, isLow, if sig.devicePixelRatio < cap then sig.devicePixelRatio else cap)
  }

  /** Both the state before the first check and every checked state. */
  ghost predicate Reachable(caps: Capabilities) {
    caps == Initial || exists sig :: caps == CheckCapabilities(sig)
  }

  /** Every mobile device is low-performance, in the initial state as in
      every checked one, and the ratio never exceeds 2, and 1.5 when
      low-performance, whatever the device reports. */
  lemma ReachableShape(caps: Capabilities)
    requires Reachable(caps)
    ensures caps.isMobile ==> caps.isLowPerformance
    ensures caps.pixelRatio <= 2.0
    ensures caps.isLowPerformance ==> caps.pixelRatio <= 1.5
  {
    if caps != Initial {
      var sig :| caps == CheckCapabilities(sig);
    }
  }

  /** The alternatives match regardless of case. */
  lemma FoldedAgentMatchesAlike(s: string, t: string)
    requires |s| == |t| && forall i :: 0 <= i < |s| ==> SameIgnoringCase(s[i], t[i])
    ensures LooksMobile(s) <==> LooksMobile(t)
  {
    forall token: string, p: nat | OccursAt(s, token, p) ensures OccursAt(t, token, p) {
      assert forall j :: 0 <= j < |token| ==> SameIgnoringCase(t[p + j], token[j]) by {
        forall j | 0 <= j < |token| ensures SameIgnoringCase(t[p + j], token[j]) {
          assert SameIgnoringCase(s[p + j], t[p + j]);
        }
      }
    }
    forall token: string, p: nat | OccursAt(t, token, p) ensures OccursAt(s, token, p) {
      assert forall j :: 0 <= j < |token| ==> SameIgnoringCase(s[p + j], token[j]) by {
        forall j | 0 <= j < |token| ensures SameIgnoringCase(s[p + j], token[j]) {
          assert SameIgnoringCase(s[p + j], t[p + j]);
        }
      }
    }
  }

  /** A lower-case `iphone` agent is mobile, hence low-performance, and a
      ratio of 3 is capped at 1.5. */
  lemma LowerCaseIPhone()
    ensures CheckCapabilities(Signals("iphone", None, 3.0)) == Capabilities(true, true, 1.5)
  {
    assert OccursAt("iphone", DeviceTokens[2], 0);
  }

  /** For an agent without any alternative, the processor count alone
      decides the tier: eight give the full tier, four the low one, and an
      absent count the full one; a ratio of at most 1.5 is kept as it is. */
  lemma CoreCountDecidesOffMobile(userAgent: string, ratio: real)
    requires !LooksMobile(userAgent) && 0.0 < ratio <= 1.5
    ensures CheckCapabilities(Signals(userAgent, Some(8), ratio)) == Capabilities(false, false, ratio)
    ensures CheckCapabilities(Signals(userAgent, Some(4), ratio)) == Capabilities(false, true, ratio)
    ensures CheckCapabilities(Signals(userAgent, None, ratio)) == Capabilities(false, false, ratio)
  {
  }
}
