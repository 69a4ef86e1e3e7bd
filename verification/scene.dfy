/** The hero scene's quality tier: what `Scene` renders for given device
    capabilities, before and after it has mounted. */
module Scene {
  import opened Wrappers
  import opened DeviceCapabilities

  datatype Wave = Wave(amplitude: real, frequency: real, speed: real)

  datatype Particles = Particles(count: nat, speed: real)

  /** A spinner until mounted; then a canvas at a device-pixel ratio with a
      wave and possibly a particle field. */
  datatype SceneView =
    | Placeholder
    | Canvas(dpr: real, wave: Wave, particles: Option<Particles>)

  const FullWave := Wave(0.5, 2.0, 0.5)
  const ReducedWave := Wave(0.3, 1.5, 0.5)

  /** Particle counts on mobile and on other devices. */
  const MobileParticles: nat := 50
  const DesktopParticles: nat := 100

  /** What the scene renders. A low-performance device gets a lower, slower
      wave and no particles; otherwise particles are drawn, fewer on mobile.
      The canvas renders at the capabilities' pixel ratio. */
  function Render(mounted: bool, caps: Capabilities): (v: SceneView)
    ensures v.Placeholder? <==> !mounted
    ensures v.Canvas? ==> v.dpr == caps.pixelRatio
    ensures v.Canvas? ==> (v.particles.Some? <==> !caps.isLowPerformance)
    ensures v.Canvas? ==> v.wave == (if caps.isLowPerformance then ReducedWave else FullWave)
    ensures v.Canvas? && v.particles.Some? ==>
              v.particles.value == Particles(if caps.isMobile then MobileParticles else DesktopParticles, 0.3)
  {
    if !mounted then Placeholder
    else
      var wave := if caps.isLowPerformance then ReducedWave else FullWave;
      var particles := if caps.isLowPerformance then None
                       else Some(Particles(if caps.isMobile then MobileParticles else DesktopParticles, 0.3));
      Canvas(caps.pixelRatio, wave, particles)
  }

  /** The reduced tier is no heavier than the full one: a smaller, lower
      wave at the same speed, and no particles. */
  lemma ReducedTierIsLighter(mounted: bool, low: Capabilities, full: Capabilities)
    requires mounted && low.isLowPerformance && !full.isLowPerformance
    ensures var a := Render(mounted, low); var b := Render(mounted, full);
            && a.wave.amplitude < b.wave.amplitude
            && a.wave.frequency < b.wave.frequency
            && a.wave.speed == b.wave.speed
            && a.particles.None? && b.particles.Some?
  {
  }

  /** Every mobile state is low-performance, so the 50-particle branch is
      never taken: whenever particles are drawn there are 100, and the
      canvas never renders above ratio 2 (1.5 without particles). */
  lemma ParticlesAlwaysFull(mounted: bool, caps: Capabilities)
    requires Reachable(caps)
    ensures var v := Render(mounted, caps);
            && (v.Canvas? && v.particles.Some? ==> v.particles.value.count == DesktopParticles)
            && (v.Canvas? ==> v.dpr <= 2.0)
            && (v.Canvas? && v.particles.None? ==> v.dpr <= 1.5)
  {
    ReachableShape(caps);
  }

  /** At the hook's initial capabilities the canvas would be the full tier at
      ratio 1. The component never draws it: the capability check runs in
      the same effect flush that marks the scene mounted, so the first
      canvas already uses checked capabilities. */
  lemma InitialRender()
    ensures Render(true, Initial) == Canvas(1.0, FullWave, Some(Particles(DesktopParticles, 0.3)))
  {
  }
}
