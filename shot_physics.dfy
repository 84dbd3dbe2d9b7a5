/** The physics, scoring and reward rules of one simulated basketball shot,
    written as values and functions over them.

    The ball is a point mass on a 1000 x 700 canvas whose y axis points down.
    Each tick adds gravity to the vertical velocity and moves the ball by its
    velocity; a shot scores when the ball is descending and within 28 units of
    the hoop centre; a shot ends on a score, past the floor, past the right
    wall, or after 400 ticks. */
module ShotPhysics {

  // ---------------------------------------------------------------------
  // Scene constants
  // ---------------------------------------------------------------------

  const Width: int := 1000
  const Height: int := 700
  const BallRadius: int := 8
  const HoopX: int := 800
  const HoopY: int := 150
  const HoopRadius: int := 20
  const Gravity: real := 0.3
  /** A shot stops once its frame count exceeds this cap. */
  const FrameCap: nat := 400
  /** Every shot starts from this height (100 above the bottom edge). */
  const StartY: int := Height - 100
  const MinStartX: int := 100
  const MaxStartX: int := 600
  /** A descending ball closer than this to the hoop centre scores. */
  const ScoreRadius: real := (HoopRadius + BallRadius) as real

  // ---------------------------------------------------------------------
  // Data
  // ---------------------------------------------------------------------

  /** A trajectory sample, truncated to integer canvas coordinates. */
  type Point = (int, int)

  /** The host math library: square root, degrees to radians, sine, cosine.
      Their bodies are not modelled; properties that need them say what they
      assume through the predicates below. */
  datatype MathLib = MathLib(sqrt: real -> real, radians: real -> real, sin: real -> real, cos: real -> real)

  /** A real extended with the two infinities (the running minimum starts at
      +infinity, and a reward shaped from it can be -infinity). */
  datatype ExtReal = NegInf | Fin(value: real) | PosInf

  /** The per-shot state of the simulator. */
  datatype Shot = Shot(
    x: real, y: real,
    vx: real, vy: real,
    frames: nat,
    scored: bool,
    complete: bool,
    score: nat,
    trajectory: seq<Point>)

  /** What one call of step hands back (the empty info record is left out). */
  datatype Outcome = Outcome(shot: Shot, observation: (real, real), reward: ExtReal, terminated: bool, truncated: bool)

  // ---------------------------------------------------------------------
  // What the properties assume of the math library
  // ---------------------------------------------------------------------

  ghost predicate SqrtNonNeg(m: MathLib) {
    forall r :: 0.0 <= r ==> 0.0 <= m.sqrt(r)
  }

  ghost predicate SqrtExact(m: MathLib) {
    forall r :: 0.0 <= r ==> 0.0 <= m.sqrt(r) && m.sqrt(r) * m.sqrt(r) == r
  }

  /** Sine and cosine are positive on the launch angles and sum in squares to one. */
  ghost predicate TrigOnLaunchAngles(m: MathLib) {
    forall deg :: 20.0 <= deg <= 80.0 ==>
      var c, s := m.cos(m.radians(deg)), m.sin(m.radians(deg));
      0.0 < c && 0.0 < s && c * c + s * s == 1.0
  }

  // ---------------------------------------------------------------------
  // Small numeric helpers
  // ---------------------------------------------------------------------

  /** Conversion of a real to an integer by truncation toward zero. */
  function Trunc(r: real): (t: int)
    ensures 0.0 <= r ==> t as real <= r < t as real + 1.0
    ensures r < 0.0 ==> t as real - 1.0 < r <= t as real
  {
    if 0.0 <= r then r.Floor else -((-r).Floor)
  }

  /** Squared Euclidean distance from (x, y) to the hoop centre. */
  function DistSq(x: real, y: real): real {
    (x - HoopX as real) * (x - HoopX as real) + (y - HoopY as real) * (y - HoopY as real)
  }

  /** Distance from (x, y) to the hoop centre, through the library's square root. */
  function Dist(x: real, y: real, m: MathLib): real {
    m.sqrt(DistSq(x, y))
  }

  function HoopDist(s: Shot, m: MathLib): real {
    Dist(s.x, s.y, m)
  }

  /** `d < e`, where e may be infinite. */
  predicate Below(d: real, e: ExtReal) {
    match e
    case NegInf => false
    case Fin(v) => d < v
    case PosInf => true
  }

  /** One update of a running minimum. */
  function Lower(acc: ExtReal, d: real): ExtReal {
    if Below(d, acc) then Fin(d) else acc
  }

  /** `-0.1 * e`. */
  function TimesMinusTenth(e: ExtReal): ExtReal {
    match e
    case NegInf => PosInf
    case Fin(v) => Fin(-0.1 * v)
    case PosInf => NegInf
  }

  /** `e - c` for a finite c. */
  function MinusReal(e: ExtReal, c: real): ExtReal {
    match e
    case Fin(v) => Fin(v - c)
    case _ => e
  }

  // ---------------------------------------------------------------------
  // Action mapping
  // ---------------------------------------------------------------------

  /** One-dimensional linear interpolation through (-1, lo) and (1, hi) that
      holds the end value outside [-1, 1], as NumPy's interp does. */
  function Interp(a: real, lo: real, hi: real): (r: real)
    requires lo <= hi
    ensures lo <= r <= hi
  {
    if a <= -1.0 then lo
    else if 1.0 <= a then hi
    else
      assert 0.0 <= (a + 1.0) * (hi - lo) <= 2.0 * (hi - lo) by {
        MulMono(a + 1.0, 2.0, hi - lo);
      }
      lo + (a + 1.0) * (hi - lo) / 2.0
  }

  lemma MulMono(p: real, q: real, k: real)
    requires 0.0 <= p <= q && 0.0 <= k
    ensures 0.0 <= p * k <= q * k
  {}

  /** Launch angle in degrees for the first action component. */
  function AngleOf(a: real): real {
    Interp(a, 20.0, 80.0)
  }

  /** Launch speed, in units per tick, for the second action component. */
  function PowerOf(a: real): real {
    Interp(a, 10.0, 28.0)
  }

  /** Set the launch velocity from the action; y grows downward, so an upward
      throw has negative vy. */
  function Launch(s: Shot, action: (real, real), m: MathLib): Shot {
    var power := PowerOf(action.1);
    var rad := m.radians(AngleOf(action.0));
    s.(vx := power * m.cos(rad), vy := -power * m.sin(rad))
  }

  // ---------------------------------------------------------------------
  // The tick loop
  // ---------------------------------------------------------------------

  /** The ball is descending and inside the scoring circle. */
  predicate Sinking(s: Shot, m: MathLib) {
    0.0 < s.vy && HoopDist(s, m) < ScoreRadius
  }

  predicate OutOfBounds(s: Shot) {
    s.x > Width as real || s.y > Height as real
  }

  /** Position and velocity of the ball. */
  datatype Ball = Ball(x: real, y: real, vx: real, vy: real)

  function BallOf(s: Shot): Ball {
    Ball(s.x, s.y, s.vx, s.vy)
  }

  /** One tick of motion: gravity first, then the velocity moves the ball. */
  function Move(b: Ball): Ball {
    var vy := b.vy + Gravity;
    Ball(b.x + b.vx, b.y + vy, b.vx, vy)
  }

  /** `k` ticks of motion. */
  function Moves(b: Ball, k: nat): Ball {
    if k == 0 then b else Move(Moves(b, k - 1))
  }

  /** One pass through the body of the simulation loop. */
  function Tick(s: Shot, m: MathLib): Shot {
    var b := Move(BallOf(s));
    var vx, vy, x, y := b.vx, b.vy, b.x, b.y;
    var frames := s.frames + 1;
    var hit := !s.scored && 0.0 < vy && Dist(x, y, m) < ScoreRadius;
    Shot(x, y, vx, vy, frames,
         s.scored || hit,
         s.complete || hit || y > Height as real || x > Width as real || frames > FrameCap,
         if hit then s.score + 1 else s.score,
         s.trajectory + [(Trunc(x), Trunc(y))])
  }

  /** An upper bound on the ticks left before the loop stops. */
  function Remaining(s: Shot): nat {
    if s.complete then 0
    else if s.frames <= FrameCap then FrameCap + 1 - s.frames
    else 1
  }

  /** `k` applications of Tick, whether or not the shot has completed. */
  function Ticks(s: Shot, k: nat, m: MathLib): Shot {
    if k == 0 then s else Tick(Ticks(s, k - 1, m), m)
  }

  /** The states after each tick the loop runs, starting from `s`. */
  function Flight(s: Shot, m: MathLib): (t: seq<Shot>)
    ensures |t| <= Remaining(s)
    ensures s.complete <==> t == []
    decreases Remaining(s)
  {
    if s.complete then [] else [Tick(s, m)] + Flight(Tick(s, m), m)
  }

  /** The state in which the loop stops. */
  function Finish(s: Shot, m: MathLib): (f: Shot)
    ensures f.complete
    ensures f.frames == s.frames + |Flight(s, m)|
    ensures |f.trajectory| == |s.trajectory| + |Flight(s, m)|
    decreases Remaining(s)
  {
    if s.complete then s else Finish(Tick(s, m), m)
  }

  /** The running minimum of the tick distances of `t`, starting from `acc`. */
  function MinFrom(acc: ExtReal, t: seq<Shot>, m: MathLib): ExtReal
    decreases |t|
  {
    if t == [] then acc else MinFrom(Lower(acc, HoopDist(t[0], m)), t[1..], m)
  }

  /** The minimum distance to the hoop over a flight (+infinity if it is empty). */
  function MinDistance(t: seq<Shot>, m: MathLib): ExtReal {
    MinFrom(PosInf, t, m)
  }

  // ---------------------------------------------------------------------
  // Reward, observation and the whole step
  // ---------------------------------------------------------------------

  function Reward(scored: bool, minDistance: ExtReal, x: real, y: real): ExtReal {
    if scored then Fin(100.0)
    else
      var shaped := TimesMinusTenth(minDistance);
      if x > Width as real || y > Height as real then MinusReal(shaped, 5.0) else shaped
  }

  /** The agent's view: ball x and the distance to the hoop centre. */
  function Observe(s: Shot, m: MathLib): (real, real) {
    (s.x, HoopDist(s, m))
  }

  /** One call of step: launch, run the loop to completion, shape the reward. */
  function StepSpec(s: Shot, action: (real, real), m: MathLib): Outcome {
    var l := Launch(s, action, m);
    var f := Finish(l, m);
    Outcome(f, Observe(f, m), Reward(f.scored, MinDistance(Flight(l, m), m), f.x, f.y), true, false)
  }

  /** The invariant of every reachable simulator state: one trajectory point
      per tick plus the start point, a score closes the shot, and a shot in
      progress has not ticked yet. */
  predicate Inv(s: Shot) {
    |s.trajectory| == s.frames + 1 &&
    (s.scored ==> s.complete) &&
    (!s.complete ==> s.frames == 0)
  }
}
