/** What the shot simulator promises: the action mapping, the motion per
    tick, the bound on the loop, the running minimum, the score latch, why a
    shot stops, and the reward that a step hands back. */
module ShotProperties {
  import opened ShotPhysics

  // ---------------------------------------------------------------------
  // Action mapping
  // ---------------------------------------------------------------------

  lemma {:induction false} InterpMonotone(a: real, b: real, lo: real, hi: real)
    requires lo <= hi && a <= b
    ensures Interp(a, lo, hi) <= Interp(b, lo, hi)
  {
    if -1.0 < a && b < 1.0 {
      MulMono(a + 1.0, b + 1.0, hi - lo);
    }
  }

  /** Angles fall in [20, 80] and powers in [10, 28]; the end actions give the
      end values, and a larger action never gives a smaller angle or power. */
  lemma ActionMapping(a: real, b: real)
    ensures 20.0 <= AngleOf(a) <= 80.0 && 10.0 <= PowerOf(a) <= 28.0
    ensures AngleOf(-1.0) == 20.0 && AngleOf(1.0) == 80.0
    ensures PowerOf(-1.0) == 10.0 && PowerOf(1.0) == 28.0
    ensures a <= -1.0 ==> AngleOf(a) == 20.0 && PowerOf(a) == 10.0
    ensures 1.0 <= a ==> AngleOf(a) == 80.0 && PowerOf(a) == 28.0
    ensures a <= b ==> AngleOf(a) <= AngleOf(b) && PowerOf(a) <= PowerOf(b)
  {
    if a <= b {
      InterpMonotone(a, b, 20.0, 80.0);
      InterpMonotone(a, b, 10.0, 28.0);
    }
  }

  /** Given a well-behaved sine and cosine, the ball leaves up and to the right
      at the chosen power, and nothing but the velocity changes. */
  lemma LaunchVelocity(s: Shot, action: (real, real), m: MathLib)
    requires TrigOnLaunchAngles(m)
    ensures var l := Launch(s, action, m); var p := PowerOf(action.1);
      0.0 < l.vx && l.vy < 0.0 &&
      l.vx * l.vx + l.vy * l.vy == p * p &&
      100.0 <= l.vx * l.vx + l.vy * l.vy <= 784.0 &&
      l.(vx := s.vx, vy := s.vy) == s
  {
    var l := Launch(s, action, m);
    var p := PowerOf(action.1);
    var deg := AngleOf(action.0);
    var c, sn := m.cos(m.radians(deg)), m.sin(m.radians(deg));
    assert 0.0 < c && 0.0 < sn && c * c + sn * sn == 1.0;
    assert l.vx == p * c && l.vy == -p * sn;
    assert 10.0 <= p <= 28.0;
    assert 0.0 < l.vx && l.vy < 0.0 by {
      MulMono(0.0, c, p);
      MulMono(0.0, sn, p);
    }
    assert speed: l.vx * l.vx + l.vy * l.vy == p * p by {
      calc {
        l.vx * l.vx + l.vy * l.vy;
        (p * c) * (p * c) + (p * sn) * (p * sn);
        p * p * (c * c + sn * sn);
        p * p;
      }
    }
    SquareBetween(p);
  }

  /** The square of a launch power lies in [100, 784]. */
  lemma SquareBetween(p: real)
    requires 10.0 <= p <= 28.0
    ensures 100.0 <= p * p <= 784.0
  {
    MulMono(10.0, p, 10.0);
    MulMono(10.0, p, p);
    assert 100.0 <= p * p;
    MulMono(p, 28.0, p);
    assert p * p <= 28.0 * p;
    MulMono(p, 28.0, 28.0);
    assert 28.0 * p <= 784.0;
  }

  // ---------------------------------------------------------------------
  // Motion
  // ---------------------------------------------------------------------

  lemma {:induction false} TicksShift(s: Shot, k: nat, m: MathLib)
    ensures Ticks(Tick(s, m), k, m) == Ticks(s, k + 1, m)
  {
    if k > 0 {
      TicksShift(s, k - 1, m);
    }
  }

  /** The ball of a shot after k ticks is the ball after k moves. */
  lemma {:induction false} TicksMove(s: Shot, k: nat, m: MathLib)
    ensures BallOf(Ticks(s, k, m)) == Moves(BallOf(s), k)
  {
    if k > 0 {
      TicksMove(s, k - 1, m);
    }
  }

  /** After k moves vx is unchanged and gravity has been added k times to vy. */
  lemma {:induction false} VelocityAfter(b: Ball, k: nat)
    ensures Moves(b, k).vx == b.vx
    ensures Moves(b, k).vy == b.vy + (k as real) * Gravity
  {
    if k > 0 {
      VelocityAfter(b, k - 1);
    }
  }

  /** After k moves the ball has gone k times vx to the right. */
  lemma {:induction false} HorizontalAfter(b: Ball, k: nat)
    ensures Moves(b, k).x == b.x + (k as real) * b.vx
  {
    if k > 0 {
      HorizontalAfter(b, k - 1);
      VelocityAfter(b, k - 1);
      Distribute((k - 1) as real, k as real, b.vx);
    }
  }

  /** After k moves the height has changed by k times the launch vy plus the
      gravity sum 0.3 * k * (k + 1) / 2 (y grows downward). */
  lemma {:induction false} VerticalAfter(b: Ball, k: nat)
    ensures Moves(b, k).y == b.y + (k as real) * b.vy + Gravity * (k as real) * ((k as real) + 1.0) / 2.0
  {
    if k > 0 {
      VerticalAfter(b, k - 1);
      VelocityAfter(b, k);
      GravitySum((k - 1) as real, k as real, b.vy);
    }
  }

  lemma Distribute(J: real, K: real, v: real)
    requires K == J + 1.0
    ensures J * v + v == K * v
  {}

  lemma GravitySum(J: real, K: real, vy: real)
    requires K == J + 1.0
    ensures J * vy + Gravity * J * (J + 1.0) / 2.0 + vy + K * Gravity
         == K * vy + Gravity * K * (K + 1.0) / 2.0
  {
    assert J * vy + vy == K * vy;
  }

  /** The closed form of the motion after k ticks: vx is kept, gravity has
      been added k times to vy, and the position is the discrete ballistic sum. */
  lemma Kinematics(b: Ball, k: nat)
    ensures var n := Moves(b, k); var K := k as real;
      n.vx == b.vx &&
      n.vy == b.vy + K * Gravity &&
      n.x == b.x + K * b.vx &&
      n.y == b.y + K * b.vy + Gravity * K * (K + 1.0) / 2.0
  {
    VelocityAfter(b, k);
    HorizontalAfter(b, k);
    VerticalAfter(b, k);
  }

  /** After k ticks the frame count and the trajectory have grown by k, and
      the earlier trajectory is kept as a prefix. */
  lemma {:induction false} TicksCount(s: Shot, k: nat, m: MathLib)
    ensures var n := Ticks(s, k, m);
      n.frames == s.frames + k &&
      |n.trajectory| == |s.trajectory| + k &&
      n.trajectory[..|s.trajectory|] == s.trajectory
  {
    if k > 0 {
      TicksCount(s, k - 1, m);
      var p := Ticks(s, k - 1, m);
      assert Ticks(s, k, m).trajectory[..|s.trajectory|] == p.trajectory[..|s.trajectory|];
    }
  }

  /** The i-th state of a flight is the state after i + 1 ticks. */
  lemma {:induction false} FlightIsTicks(s: Shot, m: MathLib)
    ensures forall i :: 0 <= i < |Flight(s, m)| ==> Flight(s, m)[i] == Ticks(s, i + 1, m)
    decreases Remaining(s)
  {
    if !s.complete {
      var n := Tick(s, m);
      FlightIsTicks(n, m);
      var t := Flight(s, m);
      assert t == [n] + Flight(n, m);
      forall i | 0 <= i < |t|
        ensures t[i] == Ticks(s, i + 1, m)
      {
        if i > 0 {
          assert t[i] == Flight(n, m)[i - 1];
          TicksShift(s, i, m);
        }
      }
    }
  }

  /** The i-th state of a flight has the ball after i + 1 moves (whose closed
      form is Kinematics), i + 1 more frames and i + 1 more trajectory points. */
  lemma FlightMotion(s: Shot, m: MathLib)
    ensures var t := Flight(s, m);
      forall i :: 0 <= i < |t| ==>
        BallOf(t[i]) == Moves(BallOf(s), i + 1) &&
        t[i].frames == s.frames + i + 1 &&
        |t[i].trajectory| == |s.trajectory| + i + 1
  {
    FlightIsTicks(s, m);
    var t := Flight(s, m);
    forall i | 0 <= i < |t|
      ensures BallOf(t[i]) == Moves(BallOf(s), i + 1) &&
              t[i].frames == s.frames + i + 1 &&
              |t[i].trajectory| == |s.trajectory| + i + 1
    {
      assert t[i] == Ticks(s, i + 1, m);
      TicksMove(s, i + 1, m);
      TicksCount(s, i + 1, m);
    }
  }

  // ---------------------------------------------------------------------
  // Termination of the loop
  // ---------------------------------------------------------------------

  /** A shot in progress that has not passed the frame cap runs at least one
      and at most FrameCap + 1 - frames ticks; from a fresh shot, 1 to 401. */
  lemma TickBound(s: Shot, m: MathLib)
    requires !s.complete && s.frames <= FrameCap
    ensures 1 <= |Flight(s, m)| <= FrameCap + 1 - s.frames
    ensures s.frames == 0 ==> 1 <= |Flight(s, m)| <= 401
  {}

  /** The loop stops in the state the flight ends with. */
  lemma {:induction false} FinishIsLast(s: Shot, m: MathLib)
    ensures var t := Flight(s, m);
      Finish(s, m) == if t == [] then s else t[|t| - 1]
    decreases Remaining(s)
  {
    if !s.complete {
      FinishIsLast(Tick(s, m), m);
    }
  }

  /** Only the last state of a flight is complete. */
  lemma {:induction false} OnlyLastComplete(s: Shot, m: MathLib)
    ensures var t := Flight(s, m); forall i :: 0 <= i < |t| ==> (t[i].complete <==> i == |t| - 1)
    decreases Remaining(s)
  {
    if !s.complete {
      var n := Tick(s, m);
      OnlyLastComplete(n, m);
      var t := Flight(s, m);
      assert t == [n] + Flight(n, m);
      forall i | 0 < i < |t|
        ensures t[i].complete <==> i == |t| - 1
      {
        assert t[i] == Flight(n, m)[i - 1];
      }
    }
  }

  /** Score latch: in a flight that starts unscored, a tick has scored exactly
      when the ball is descending inside the scoring circle there; that tick
      is the last one, and it raised the score by exactly one. */
  lemma {:induction false} ScoreLatch(s: Shot, m: MathLib)
    requires !s.scored
    ensures var t := Flight(s, m);
      forall i :: 0 <= i < |t| ==>
        (t[i].scored <==> Sinking(t[i], m)) &&
        (t[i].scored ==> i == |t| - 1) &&
        t[i].score == (if t[i].scored then s.score + 1 else s.score)
    decreases Remaining(s)
  {
    if !s.complete {
      var n := Tick(s, m);
      var t := Flight(s, m);
      assert t == [n] + Flight(n, m);
      if !n.scored {
        ScoreLatch(n, m);
        forall i | 0 < i < |t|
          ensures (t[i].scored <==> Sinking(t[i], m)) &&
                  (t[i].scored ==> i == |t| - 1) &&
                  t[i].score == (if t[i].scored then s.score + 1 else s.score)
        {
          assert t[i] == Flight(n, m)[i - 1];
        }
      }
    }
  }

  /** The loop stops exactly at the first tick that scores, passes the floor,
      passes the right wall or exceeds the frame cap. */
  lemma {:induction false} StopCause(s: Shot, m: MathLib)
    requires !s.scored
    ensures var t := Flight(s, m);
      forall i :: 0 <= i < |t| ==>
        (i == |t| - 1 <==> Sinking(t[i], m) || OutOfBounds(t[i]) || t[i].frames > FrameCap)
    decreases Remaining(s)
  {
    if !s.complete {
      var n := Tick(s, m);
      var t := Flight(s, m);
      assert t == [n] + Flight(n, m);
      if !n.scored {
        StopCause(n, m);
        forall i | 0 < i < |t|
          ensures i == |t| - 1 <==> Sinking(t[i], m) || OutOfBounds(t[i]) || t[i].frames > FrameCap
        {
          assert t[i] == Flight(n, m)[i - 1];
        }
      }
    }
  }

  // ---------------------------------------------------------------------
  // Running minimum
  // ---------------------------------------------------------------------

  /** The running minimum ends at its start value or at one of the tick
      distances, and is at most every tick distance and the start value. */
  lemma {:induction false} MinFromIsMinimum(acc: ExtReal, t: seq<Shot>, m: MathLib)
    requires acc != NegInf
    ensures var r := MinFrom(acc, t, m);
      r != NegInf &&
      (r == acc || exists i :: 0 <= i < |t| && r == Fin(HoopDist(t[i], m))) &&
      (forall i :: 0 <= i < |t| ==> r.Fin? && r.value <= HoopDist(t[i], m)) &&
      (acc.Fin? ==> r.Fin? && r.value <= acc.value)
    decreases |t|
  {
    if t != [] {
      var acc' := Lower(acc, HoopDist(t[0], m));
      MinFromIsMinimum(acc', t[1..], m);
      var r := MinFrom(acc, t, m);
      assert r == MinFrom(acc', t[1..], m);
      if r != acc && r != acc' {
        var j :| 0 <= j < |t[1..]| && r == Fin(HoopDist(t[1..][j], m));
        assert r == Fin(HoopDist(t[j + 1], m));
      } else if r == acc' && acc' != acc {
        assert r == Fin(HoopDist(t[0], m));
      }
      forall i | 0 <= i < |t|
        ensures r.Fin? && r.value <= HoopDist(t[i], m)
      {
        if i > 0 {
          assert t[i] == t[1..][i - 1];
        }
      }
    }
  }

  /** The minimum distance of a non-empty flight is one of its tick distances
      and at most all of them; an empty flight leaves it at +infinity. */
  lemma MinDistanceOfFlight(t: seq<Shot>, m: MathLib)
    ensures t == [] ==> MinDistance(t, m) == PosInf
    ensures t != [] ==>
      MinDistance(t, m).Fin? &&
      (exists i :: 0 <= i < |t| && MinDistance(t, m).value == HoopDist(t[i], m)) &&
      (forall i :: 0 <= i < |t| ==> MinDistance(t, m).value <= HoopDist(t[i], m))
  {
    MinFromIsMinimum(PosInf, t, m);
  }

  // ---------------------------------------------------------------------
  // Distance to the hoop
  // ---------------------------------------------------------------------

  lemma SquareNonNeg(r: real)
    ensures 0.0 <= r * r
  {}

  /** With an exact square root, the distance is the Euclidean one, and being
      inside the scoring circle means (x - 800)^2 + (y - 150)^2 < 28^2. */
  lemma ScoringCircle(x: real, y: real, m: MathLib)
    requires SqrtExact(m)
    ensures 0.0 <= Dist(x, y, m) && Dist(x, y, m) * Dist(x, y, m) == DistSq(x, y)
    ensures Dist(x, y, m) < ScoreRadius <==> DistSq(x, y) < 784.0
  {
    SquareNonNeg(x - HoopX as real);
    SquareNonNeg(y - HoopY as real);
    var d := Dist(x, y, m);
    assert 0.0 <= d && d * d == DistSq(x, y);
    assert ScoreRadius == 28.0;
    if d < 28.0 {
      MulMono(d, 28.0, d);
      MulMono(d, 28.0, 28.0);
    } else {
      MulMono(28.0, d, d);
      MulMono(28.0, d, 28.0);
    }
  }

  /** The observation is the ball's x and its Euclidean distance to the hoop. */
  lemma ObservationDistance(s: Shot, m: MathLib)
    requires SqrtExact(m)
    ensures var o := Observe(s, m);
      o.0 == s.x && 0.0 <= o.1 && o.1 * o.1 == DistSq(s.x, s.y)
  {
    ScoringCircle(s.x, s.y, m);
  }

  lemma {:induction false} DistNonNeg(s: Shot, m: MathLib)
    requires SqrtNonNeg(m)
    ensures 0.0 <= HoopDist(s, m)
  {
    SquareNonNeg(s.x - HoopX as real);
    SquareNonNeg(s.y - HoopY as real);
  }

  // ---------------------------------------------------------------------
  // One step
  // ---------------------------------------------------------------------

  /** A step keeps the simulator invariant and always reports a finished,
      untruncated episode. */
  lemma StepKeepsInv(s: Shot, action: (real, real), m: MathLib)
    requires Inv(s)
    ensures var o := StepSpec(s, action, m);
      Inv(o.shot) && o.shot.complete && o.terminated && !o.truncated
  {}

  /** A step on a fresh shot runs 1 to 401 ticks, ends in the last state of
      the flight with one trajectory point per tick after the start point,
      stops for one of the four reasons, and scores exactly when the ball
      ends descending inside the scoring circle, adding one to the score. */
  lemma StepFromFreshShot(s: Shot, action: (real, real), m: MathLib)
    requires Inv(s) && !s.complete
    ensures var l := Launch(s, action, m); var t := Flight(l, m); var f := StepSpec(s, action, m).shot;
      1 <= |t| <= FrameCap + 1 &&
      f == t[|t| - 1] &&
      f.frames == |t| && |f.trajectory| == 1 + |t| &&
      (f.scored || OutOfBounds(f) || f.frames > FrameCap) &&
      (f.scored <==> Sinking(f, m)) &&
      f.score == (if f.scored then s.score + 1 else s.score)
  {
    var l := Launch(s, action, m);
    var t := Flight(l, m);
    TickBound(l, m);
    FinishIsLast(l, m);
    StopCause(l, m);
    ScoreLatch(l, m);
    var j := |t| - 1;
    assert Sinking(t[j], m) || OutOfBounds(t[j]) || t[j].frames > FrameCap;
    assert t[j].scored <==> Sinking(t[j], m);
  }

  /** A step on a shot that has already finished (no reset in between) runs
      no tick: it only overwrites the velocity, and its reward is 100 if the
      old shot scored and -infinity otherwise. */
  lemma StepWithoutReset(s: Shot, action: (real, real), m: MathLib)
    requires s.complete
    ensures var o := StepSpec(s, action, m);
      o.shot == Launch(s, action, m) &&
      o.reward == (if s.scored then Fin(100.0) else NegInf)
  {
    MinDistanceOfFlight([], m);
  }

  /** The score never decreases; it rises by one exactly when the step scores. */
  lemma ScoreNeverDecreases(s: Shot, action: (real, real), m: MathLib)
    requires Inv(s)
    ensures var f := StepSpec(s, action, m).shot;
      s.score <= f.score <= s.score + 1 &&
      (f.score == s.score + 1 <==> f.scored && !s.scored)
  {
    if !s.complete {
      StepFromFreshShot(s, action, m);
    }
  }

  /** The reward of a step on a fresh shot is 100 exactly when it scores;
      otherwise it is -0.1 times the least distance to the hoop over the
      whole flight, less 5 when the ball ended past the floor or the right
      wall, and never positive. */
  lemma StepReward(s: Shot, action: (real, real), m: MathLib)
    requires Inv(s) && !s.complete && SqrtNonNeg(m)
    ensures var l := Launch(s, action, m); var t := Flight(l, m); var o := StepSpec(s, action, m);
      (o.reward == Fin(100.0) <==> o.shot.scored) &&
      (!o.shot.scored ==>
        MinDistance(t, m).Fin? &&
        var d := MinDistance(t, m).value;
        0.0 <= d &&
        (forall i :: 0 <= i < |t| ==> d <= HoopDist(t[i], m)) &&
        (exists i :: 0 <= i < |t| && d == HoopDist(t[i], m)) &&
        o.reward == Fin(-0.1 * d - (if OutOfBounds(o.shot) then 5.0 else 0.0)) &&
        o.reward.value <= 0.0)
  {
    var l := Launch(s, action, m);
    var t := Flight(l, m);
    var o := StepSpec(s, action, m);
    StepFromFreshShot(s, action, m);
    MinDistanceOfFlight(t, m);
    var d := MinDistance(t, m).value;
    var i :| 0 <= i < |t| && d == HoopDist(t[i], m);
    DistNonNeg(t[i], m);
  }
}
