/**
 * `bundle`: checks that at least one output was requested and then runs
 * one bundling step per requested output, in the fixed order html,
 * windows, mac, linux. Modelled as the plan of steps it runs.
 */
module Dispatch {
  import opened Wrappers
  import opened Request

  const NoOutputsMessage: string := "You must specify one or more bundle outputs."

  datatype Target = Html | Windows | Mac | Linux

  /** The order in which `bundle` visits the targets. */
  const AllTargets: seq<Target> := [Html, Windows, Mac, Linux]

  function Rank(t: Target): nat {
    match t
    case Html => 0
    case Windows => 1
    case Mac => 2
    case Linux => 3
  }

  /**
   * The runtime image a native target embeds, as the suffix `bundle`
   * appends to the natives directory.
   */
  function NativeImage(t: Target): (r: string)
    requires t != Html
    ensures |r| > 7 && r[..7] == "/wasm4-"
  {
    match t
    case Windows => "/wasm4-windows.exe"
    case Mac => "/wasm4-mac"
    case Linux => "/wasm4-linux"
  }

  /** One call `bundle` makes: `bundleHtml(cartFile, htmlFile, opts)` or `bundleExecutable(cartFile, sourceFile, outputFile, opts)`. */
  datatype Step =
    | BundleHtml(cartFile: string, htmlFile: string)
    | BundleExecutable(cartFile: string, sourceFile: string, outputFile: string)

  /**
   * The steps `bundle(cartFile, opts)` runs, or the error it throws before
   * running any. `nativesDir` is the resolved `../assets/natives` directory.
   */
  function Plan(cartFile: string, opts: BundleOptions, nativesDir: string): (r: Result<seq<Step>, string>)
    ensures r.Failure? <==>
      !Truthy(opts.html) && !Truthy(opts.windows) && !Truthy(opts.mac) && !Truthy(opts.linux)
    ensures r.Failure? ==> r.error == NoOutputsMessage
    ensures r.Success? ==> 1 <= |r.value| <= 4
  {
    if !Truthy(opts.html) && !Truthy(opts.windows) && !Truthy(opts.mac) && !Truthy(opts.linux) then
      Failure(NoOutputsMessage)
    else
      Success(
        (if Truthy(opts.html) then [BundleHtml(cartFile, opts.html.value)] else [])
        + (if Truthy(opts.windows)
           then [BundleExecutable(cartFile, nativesDir + "/wasm4-windows.exe", opts.windows.value)] else [])
        + (if Truthy(opts.mac)
           then [BundleExecutable(cartFile, nativesDir + "/wasm4-mac", opts.mac.value)] else [])
        + (if Truthy(opts.linux)
           then [BundleExecutable(cartFile, nativesDir + "/wasm4-linux", opts.linux.value)] else []))
  }

  // A reference definition of the plan: filter the targets by their option, then map each to its step.

  /** The option naming a target's output path. */
  function OutputOption(opts: BundleOptions, t: Target): Option<string> {
    match t
    case Html => opts.html
    case Windows => opts.windows
    case Mac => opts.mac
    case Linux => opts.linux
  }

  function OutputPath(opts: BundleOptions, t: Target): string {
    match OutputOption(opts, t)
    case Some(p) => p
    case None => ""
  }

  /** The targets of `ts` whose output option is set, in the order of `ts`. */
  function Requested(opts: BundleOptions, ts: seq<Target>): seq<Target> {
    if ts == [] then []
    else (if Truthy(OutputOption(opts, ts[0])) then [ts[0]] else []) + Requested(opts, ts[1..])
  }

  /** The step for one target: HTML, or a native image paired with its output path. */
  function StepFor(cartFile: string, opts: BundleOptions, nativesDir: string, t: Target): Step {
    if t == Html then BundleHtml(cartFile, OutputPath(opts, t))
    else BundleExecutable(cartFile, nativesDir + NativeImage(t), OutputPath(opts, t))
  }

  function StepsFor(cartFile: string, opts: BundleOptions, nativesDir: string, ts: seq<Target>): seq<Step> {
    seq(|ts|, i requires 0 <= i < |ts| => StepFor(cartFile, opts, nativesDir, ts[i]))
  }

  ghost predicate Ordered(ts: seq<Target>) {
    forall i, j | 0 <= i < j < |ts| :: Rank(ts[i]) < Rank(ts[j])
  }

  /** A target is requested exactly when it is among `ts` and its option is truthy. */
  lemma {:induction false} RequestedExact(opts: BundleOptions, ts: seq<Target>, t: Target)
    ensures t in Requested(opts, ts) <==> t in ts && Truthy(OutputOption(opts, t))
  {
    if ts != [] {
      RequestedExact(opts, ts[1..], t);
      assert ts == [ts[0]] + ts[1..];
    }
  }

  /** Filtering keeps the order of the targets. */
  lemma {:induction false} RequestedOrdered(opts: BundleOptions, ts: seq<Target>)
    requires Ordered(ts)
    ensures Ordered(Requested(opts, ts))
  {
    if ts != [] {
      RequestedOrdered(opts, ts[1..]);
      var rest := Requested(opts, ts[1..]);
      forall t | t in rest
        ensures Rank(ts[0]) < Rank(t)
      {
        RequestedExact(opts, ts[1..], t);
        var j :| 0 <= j < |ts[1..]| && ts[1..][j] == t;
        assert ts[j + 1] == t;
      }
      var r := Requested(opts, ts);
      forall i, j | 0 <= i < j < |r|
        ensures Rank(r[i]) < Rank(r[j])
      {
        if Truthy(OutputOption(opts, ts[0])) {
          if i == 0 {
            assert r[j] == rest[j - 1];
          } else {
            assert r[i] == rest[i - 1] && r[j] == rest[j - 1];
          }
        } else {
          assert r == rest;
        }
      }
    }
  }

  /** `bundle` runs the requested targets' steps, in order, or fails when none is requested. */
  lemma PlanFollowsRequest(cartFile: string, opts: BundleOptions, nativesDir: string)
    ensures var req := Requested(opts, AllTargets);
            Plan(cartFile, opts, nativesDir) ==
              if req == [] then Failure(NoOutputsMessage)
              else Success(StepsFor(cartFile, opts, nativesDir, req))
  {
    var ts := AllTargets;
    assert ts[1..] == [Windows, Mac, Linux];
    assert ts[1..][1..] == [Mac, Linux];
    assert ts[1..][1..][1..] == [Linux];
    assert ts[1..][1..][1..][1..] == [];
    var h := if Truthy(opts.html) then [Html] else [];
    var w := if Truthy(opts.windows) then [Windows] else [];
    var m := if Truthy(opts.mac) then [Mac] else [];
    var l := if Truthy(opts.linux) then [Linux] else [];
    assert Requested(opts, [Linux]) == l;
    assert Requested(opts, [Mac, Linux]) == m + l;
    assert Requested(opts, [Windows, Mac, Linux]) == w + m + l;
    var req := Requested(opts, ts);
    assert req == h + w + m + l;
    var steps := StepsFor(cartFile, opts, nativesDir, req);
    var plan := Plan(cartFile, opts, nativesDir);
    if plan.Success? {
      var sh := if Truthy(opts.html) then [BundleHtml(cartFile, opts.html.value)] else [];
      var sw := if Truthy(opts.windows)
                then [BundleExecutable(cartFile, nativesDir + "/wasm4-windows.exe", opts.windows.value)] else [];
      var sm := if Truthy(opts.mac)
                then [BundleExecutable(cartFile, nativesDir + "/wasm4-mac", opts.mac.value)] else [];
      var sl := if Truthy(opts.linux)
                then [BundleExecutable(cartFile, nativesDir + "/wasm4-linux", opts.linux.value)] else [];
      assert StepsFor(cartFile, opts, nativesDir, h) == sh;
      assert StepsFor(cartFile, opts, nativesDir, w) == sw;
      assert StepsFor(cartFile, opts, nativesDir, m) == sm;
      assert StepsFor(cartFile, opts, nativesDir, l) == sl;
      StepsForAppend(cartFile, opts, nativesDir, h + w + m, l);
      StepsForAppend(cartFile, opts, nativesDir, h + w, m);
      StepsForAppend(cartFile, opts, nativesDir, h, w);
    }
  }

  lemma StepsForAppend(cartFile: string, opts: BundleOptions, nativesDir: string, a: seq<Target>, b: seq<Target>)
    ensures StepsFor(cartFile, opts, nativesDir, a + b)
         == StepsFor(cartFile, opts, nativesDir, a) + StepsFor(cartFile, opts, nativesDir, b)
  {
  }

  /**
   * When `bundle` does not fail, its steps are one per requested target,
   * exactly the requested ones, in the order html, windows, mac, linux; each
   * native step embeds its platform's runtime image and writes to the path
   * given for that platform.
   */
  lemma PlanSteps(cartFile: string, opts: BundleOptions, nativesDir: string)
    requires Plan(cartFile, opts, nativesDir).Success?
    ensures var steps := Plan(cartFile, opts, nativesDir).value;
            var req := Requested(opts, AllTargets);
            && |steps| == |req|
            && (forall t :: t in req <==> Truthy(OutputOption(opts, t)))
            && Ordered(req)
            && (forall i | 0 <= i < |steps| ::
                  steps[i] == StepFor(cartFile, opts, nativesDir, req[i]))
  {
    PlanFollowsRequest(cartFile, opts, nativesDir);
    forall t
      ensures t in Requested(opts, AllTargets) <==> Truthy(OutputOption(opts, t))
    {
      RequestedExact(opts, AllTargets, t);
      assert t in AllTargets by { assert AllTargets[Rank(t)] == t; }
    }
    RequestedOrdered(opts, AllTargets);
  }
}
