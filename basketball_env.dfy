/** The shooter environment: an object that holds the state of the current
    shot, starts a fresh shot on reset, and on each step launches the ball
    from the action and simulates the whole flight before it returns. */
module BasketballEnv {
  import opened ShotPhysics
  import ShotProperties

  class BasketballShooterEnv {
    /** The host math library, fixed for the lifetime of the environment. */
    const math: MathLib
    var startX: int
    var startY: int
    var ballX: real
    var ballY: real
    var vx: real
    var vy: real
    var frameCount: nat
    var scored: bool
    /** Shots scored since construction. */
    var score: nat
    var shotComplete: bool
    var trajectory: seq<Point>

    /** The fields that make up the current shot, as a value. */
    function State(): Shot
      reads this
    {
      Shot(ballX, ballY, vx, vy, frameCount, scored, shotComplete, score, trajectory)
    }

    /** The object invariant: the start point lies on the start line within
        its range, and the shot satisfies the simulator invariant. */
    ghost predicate Valid()
      reads this
    {
      MinStartX <= startX <= MaxStartX && startY == StartY && Inv(State())
    }

    /** The agent's observation of the current state: ball x and the distance
        to the hoop centre. */
    function Observation(): (real, real)
      reads this
    {
      Observe(State(), math)
    }

    /** A new environment: score 0 and a fresh shot. The velocity is not set
        until the first step; it holds 0 until then. */
    constructor (math: MathLib)
      ensures Valid() && this.math == math
      ensures score == 0 && vx == 0.0 && vy == 0.0
      ensures ballX == startX as real && ballY == startY as real && trajectory == [(startX, startY)]
      ensures !shotComplete && !scored && frameCount == 0
    {
      this.math := math;
      score := 0;
      vx, vy := 0.0, 0.0;
      new;
      ResetShot();
    }

    /** Start a fresh shot from a start x chosen anywhere in [100, 600] on the
        start line; the score and the last velocity are kept. */
    method ResetShot()
      modifies this
      ensures Valid()
      ensures ballX == startX as real && ballY == startY as real && trajectory == [(startX, startY)]
      ensures !shotComplete && !scored && frameCount == 0
      ensures score == old(score) && vx == old(vx) && vy == old(vy)
    {
      var x :| MinStartX <= x <= MaxStartX;
      startX := x;
      startY := Height - 100;
      ballX := startX as real;
      ballY := startY as real;
      trajectory := [(startX, startY)];
      shotComplete := false;
      scored := false;
      frameCount := 0;
    }

    /** Start a fresh shot and return the first observation. */
    method Reset() returns (obs: (real, real))
      modifies this
      ensures Valid()
      ensures ballX == startX as real && ballY == startY as real && trajectory == [(startX, startY)]
      ensures !shotComplete && !scored && frameCount == 0
      ensures score == old(score) && vx == old(vx) && vy == old(vy)
      ensures obs == Observation()
    {
      ResetShot();
      obs := Observation();
    }

    /** One pass through the simulation loop: gravity, motion, the running
        minimum of the distance to the hoop, the trajectory point, the frame
        count, the score latch and the stop conditions. */
    method AdvanceTick(minDistance: ExtReal) returns (newMin: ExtReal)
      modifies this
      ensures State() == Tick(old(State()), math)
      ensures newMin == Lower(minDistance, HoopDist(State(), math))
      ensures startX == old(startX) && startY == old(startY)
    {
      ghost var next := Tick(State(), math);
      newMin := minDistance;
      vy := vy + Gravity;
      ballX := ballX + vx;
      ballY := ballY + vy;
      var currDist := Dist(ballX, ballY, math);
      if Below(currDist, newMin) {
        newMin := Fin(currDist);
      }
      trajectory := trajectory + [(Trunc(ballX), Trunc(ballY))];
      frameCount := frameCount + 1;
      if !scored && vy > 0.0 {
        if currDist < ScoreRadius {
          scored := true;
          score := score + 1;
          shotComplete := true;
        }
      }
      if ballY > Height as real || ballX > Width as real || frameCount > FrameCap {
        shotComplete := true;
      }
      assert ballX == next.x && ballY == next.y && vx == next.vx && vy == next.vy;
      assert frameCount == next.frames && trajectory == next.trajectory;
      assert scored == next.scored && score == next.score && shotComplete == next.complete;
    }

    /** Launch the ball from the action (angle, power), simulate ticks until
        the shot is complete, and return the observation, the reward and the
        episode flags. */
    method Step(action: (real, real)) returns (obs: (real, real), reward: ExtReal, terminated: bool, truncated: bool)
      requires Valid()
      modifies this
      ensures Valid()
      ensures var o := StepSpec(old(State()), action, math);
        State() == o.shot && obs == o.observation && reward == o.reward &&
        terminated == o.terminated && truncated == o.truncated
      ensures startX == old(startX) && startY == old(startY)
      ensures shotComplete && terminated && !truncated
      ensures old(score) <= score <= old(score) + 1
    {
      ghost var s0 := State();
      var angle := AngleOf(action.0);
      var power := PowerOf(action.1);
      var angleRad := math.radians(angle);
      vx := power * math.cos(angleRad);
      vy := -power * math.sin(angleRad);
      ghost var launched := State();
      assert launched == Launch(s0, action, math);

      var minDistance := PosInf;
      while !shotComplete
        invariant !shotComplete ==> frameCount <= FrameCap
        invariant startX == old(startX) && startY == old(startY)
        invariant Finish(State(), math) == Finish(launched, math)
        invariant MinFrom(minDistance, Flight(State(), math), math) == MinDistance(Flight(launched, math), math)
        decreases FrameCap + 1 - frameCount
      {
        ghost var before := State();
        minDistance := AdvanceTick(minDistance);
        assert Flight(before, math) == [State()] + Flight(State(), math);
        assert Flight(before, math)[1..] == Flight(State(), math);
      }

      reward := Reward(scored, minDistance, ballX, ballY);
      terminated := true;
      truncated := false;
      obs := Observation();
      ShotProperties.StepKeepsInv(s0, action, math);
      ShotProperties.ScoreNeverDecreases(s0, action, math);
    }
  }
}
