/** The particle record of the pool and the per-frame rules that change one record. */
module Particles {

  /** The index that stands for a null `next` pointer. */
  const Null: int := -1

  /** The three active lists: the general (splash) list, the rain list and the fire list.
      Which one a node is placed into is the `headNode` argument of PlaceNodeInZSortedList. */
  datatype ActiveList = General | Rain | Fire

  /** One slot of the pool: position, colour, velocity, the intrusive link and the
      remaining lifetime. Floats of the C++ record are modelled as reals. */
  datatype Particle = Particle(
    x: real, y: real, z: real,
    red: real, green: real, blue: real, alpha: real,
    vx: real, vy: real, vz: real,
    next: int,
    life: real)

  /** The contents a freshly allocated slot is given here (the C++ array is left uninitialised). */
  const Blank: Particle := Particle(0.0, 0.0, 0.0, 0.0, 0.0, 0.0, 0.0, 0.0, 0.0, 0.0, Null, 0.0)

  /** A record with its link erased: all that the simulation stores in a slot. */
  function Payload(p: Particle): Particle
  {
    p.(next := Null)
  }

  /** The records qs are the records ps but for their links. */
  ghost predicate SamePayloads(qs: seq<Particle>, ps: seq<Particle>)
  {
    |qs| == |ps| && forall j :: 0 <= j < |ps| ==> Payload(qs[j]) == Payload(ps[j])
  }

  /** MoveParticles: the position advances by the velocity over one frame. */
  function Moved(p: Particle, dt: real): (r: Particle)
    ensures r.(x := p.x, y := p.y, z := p.z) == p
    ensures p.vx == 0.0 ==> r.x == p.x
    ensures p.vz == 0.0 ==> r.z == p.z
    ensures dt == 0.0 ==> r == p
  {
    p.(x := p.x + p.vx * dt, y := p.y + p.vy * dt, z := p.z + p.vz * dt)
  }

  /** Bounce factors applied when a general particle falls below the ground. */
  const BounceY: real := -0.4
  const BounceXZ: real := 0.6
  /** Height a bounced general particle is put back at. */
  const BounceHeight: real := 0.1

  /** One frame of a general (ring) particle: gravity only while above the ground,
      movement, ageing, and a damped bounce when it ends below the ground. */
  function GeneralStep(p: Particle, gravity: real, dt: real): (r: Particle)
    ensures r.y >= 0.0
    ensures r.life == p.life - dt
    ensures r.next == p.next
    ensures r.red == p.red && r.green == p.green && r.blue == p.blue && r.alpha == p.alpha
  {
    var fallen := if p.y > 0.0 then p.(vy := p.vy + gravity * dt) else p;
    var moved := Moved(fallen, dt).(life := fallen.life - dt);
    if moved.y < 0.0 then
      moved.(y := BounceHeight, vy := moved.vy * BounceY, vx := moved.vx * BounceXZ, vz := moved.vz * BounceXZ)
    else
      moved
  }

  /** One frame of a rain particle: gravity always applies, the lifetime is never touched. */
  function RainStep(p: Particle, gravity: real, dt: real): (r: Particle)
    ensures r.life == p.life
    ensures r.next == p.next
    ensures r.vx == p.vx && r.vz == p.vz
    ensures r.vy - p.vy == gravity * dt
    ensures p.vx == 0.0 ==> r.x == p.x
    ensures p.vz == 0.0 ==> r.z == p.z
  {
    Moved(p.(vy := p.vy + gravity * dt), dt)
  }

  /** One frame of a fire particle: no gravity, movement and ageing. */
  function FireStep(p: Particle, dt: real): (r: Particle)
    ensures r.vx == p.vx && r.vy == p.vy && r.vz == p.vz
    ensures r.life == p.life - dt
    ensures r.next == p.next
    ensures r.red == p.red && r.green == p.green && r.blue == p.blue
    ensures p.vz == 0.0 ==> r.z == p.z
  {
    Moved(p, dt).(life := p.life - dt)
  }

  /** The rain reset of the kill pass: a drop below the ground goes back to the spawn
      height with the spawn velocity; x, z and everything else stay. */
  function Recycled(p: Particle, height: real, velocityY: real): (r: Particle)
    ensures height >= 0.0 ==> r.y >= 0.0
    ensures r.x == p.x && r.z == p.z && r.vx == p.vx && r.vz == p.vz && r.life == p.life && r.next == p.next
    ensures p.y < 0.0 ==> r.y == height && r.vy == velocityY
    ensures !(p.y < 0.0) ==> r == p
  {
    if p.y < 0.0 then p.(y := height, vy := velocityY) else p
  }

  /** Colour component of smoke. */
  const SmokeShade: real := 0.1

  /** The fire-to-smoke transition of the kill pass, applied to a surviving fire particle. */
  function Smoked(p: Particle, smokeLifeTime: real): (r: Particle)
    ensures r.(red := p.red, green := p.green, blue := p.blue) == p
    ensures p.life < smokeLifeTime ==> r.red == SmokeShade && r.green == SmokeShade && r.blue == SmokeShade
    ensures !(p.life < smokeLifeTime) ==> r == p
  {
    if p.life < smokeLifeTime then p.(red := SmokeShade, green := SmokeShade, blue := SmokeShade) else p
  }

  /** The C++ `(int)` cast of a real: truncation toward zero. */
  function Truncate(r: real): (n: int)
    ensures r >= 0.0 ==> 0 <= n && n as real <= r < n as real + 1.0
    ensures r < 0.0 ==> n <= 0 && n as real - 1.0 < r <= n as real
  {
    if r >= 0.0 then r.Floor else -((-r).Floor)
  }
}
