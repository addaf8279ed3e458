/** The settings of the particle system. */
module Settings {
  /** Settings that InitializeParticleSystem assigns and nothing changes afterwards. */
  const MaxParticles: nat := 10000
  const RainInstanceCount: nat := 1000
  const FireParticlesPerSecond: int := 150
  const RainSpawnInHeight: real := 20.0
  const RainSpawnYVelocity: real := -3.0
  const SmokeLifeTime: real := 3.0
  /** m_rainBoxCoordinates: (xleft, xright, zclose, zfar). */
  const RainBoxLeft: real := -10.0
  const RainBoxRight: real := 20.0
  const RainBoxClose: real := 15.0
  const RainBoxFar: real := 50.0
  const Gravity: real := -3.5
  /** Where Frame starts this frame's fire particles. */
  const FireSpotX: real := 3.0
  const FireSpotY: real := 0.0
  const FireSpotZ: real := 28.0
  /** The size of the instance array that InitializeBuffers allocates: one entry per pool slot. */
  const TotalInstanceCount: nat := MaxParticles
}
