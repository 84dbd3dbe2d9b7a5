# Basketball shot simulator, in Dafny

This project models the shot simulator of a reinforcement-learning
basketball environment (`BasketballShooterEnvV2` in `basketball_env.py`).
An agent picks an action (a normalised angle and power, each nominally in
[-1, 1]). The environment maps it to a launch angle in [20°, 80°] and a speed
in [10, 28] units per tick. It launches a point-mass ball from a start point
on the line y = 600 of a 1000 x 700 canvas whose y axis points down. It then
runs the whole flight in one call: each tick adds gravity 0.3 to the
vertical velocity and moves the ball. It keeps the running minimum distance
to the hoop at (800, 150). It latches a score when the ball is descending
within 28 units (hoop radius 20 plus ball radius 8) of the hoop centre. The
flight stops on a score, below the floor (y > 700), past the right wall
(x > 1000), or once the frame count exceeds 400. The reward is 100 for a
score; otherwise it is -0.1 times the minimum distance, less 5 if the ball
left through the floor or the right wall.

The project has three files:

- `shot_physics.dfy`, module `ShotPhysics`: the constants, the shot state as
  a value (`Shot`), one pass of the loop (`Tick`), the states a flight goes
  through (`Flight`), the state it stops in (`Finish`), the running minimum
  (`MinFrom`), the action mapping (`Interp`, `AngleOf`, `PowerOf`,
  `Launch`), the reward, the observation and one whole step (`StepSpec`).
- `shot_properties.dfy`, module `ShotProperties`: lemmas about those
  functions. They cover the action mapping, the closed form of the motion,
  the tick bound, the running minimum, the score latch, why a shot stops,
  and the reward.
- `basketball_env.dfy`, module `BasketballEnv`: the environment as a class
  whose fields are the source's instance fields. `ResetShot`, `Reset`,
  `Step` and the loop body `AdvanceTick` update them in place. `Step` runs
  the `while not shot_complete` loop with a `decreases` bound. Each method's
  contract ties the new state to the `ShotPhysics` functions.

The host's `math.sqrt`, `math.radians`, `math.sin` and `math.cos` are not
modelled. They are the four fields of a `MathLib` value that the environment
receives at construction. A lemma that needs something of them says so in
its `requires`: `SqrtNonNeg` (the square root is never negative),
`SqrtExact` (it is the exact square root), or `TrigOnLaunchAngles` (sine and
cosine are positive on [20°, 80°] and their squares sum to 1).

Positions and velocities are exact `real`s. The running minimum starts at
+infinity, as `float('inf')` does in the source, so it and the reward are
`ExtReal` values (a real, +infinity or -infinity).

Behaviours of the source worth noting:

- The action is mapped with `np.interp`, which holds the end value for
  inputs outside [-1, 1]. So an out-of-range action is clamped, not
  extrapolated (`Interp`, `ActionMapping`).
- Resetting a shot does not clear the velocity: `reset_shot` leaves `vx` and
  `vy` as the last step set them. The trajectory is not empty after a
  reset; it holds the start point.
- A flight can run 401 ticks: the stop test is `frame_count > 400`, made
  after the count is raised.
- Calling `step` on a finished shot without a reset runs no tick. The
  minimum distance stays at +infinity, so the reward is -infinity, or 100
  if the old shot had scored (`StepWithoutReset`).

## Model

| member | source | states |
|---|---|---|
| `ShotPhysics.Interp` | basketball_env.py:69-70 | The interpolated value always lies between the two end values. |
| `ShotProperties.InterpMonotone` | basketball_env.py:69-70 | Interpolation is monotone: a larger action never gives a smaller value. |
| `ShotProperties.ActionMapping` | basketball_env.py:69-70 | The angle lies in [20, 80] and the power in [10, 28]. Action -1 gives 20 and 10, action 1 gives 80 and 28. Actions beyond the ends are clamped to them, and both mappings are monotone. |
| `ShotProperties.LaunchVelocity` | basketball_env.py:72-74 | With well-behaved sine and cosine, the ball leaves up and to the right (vx > 0, vy < 0). Its speed is exactly the mapped power, so the squared speed lies in [100, 784]. Only the velocity changes. |
| `ShotProperties.SquareBetween` | basketball_env.py:70 | Any power the action can map to squares to a value in [100, 784]. |
| `ShotPhysics.Trunc` | basketball_env.py:89 | Trajectory points are truncated toward zero: the result is within 1 of the real, on the side of zero. |
| `ShotPhysics.Flight` | basketball_env.py:79-103 | The loop terminates. It runs no tick on a completed shot, at least one tick otherwise, and never more than the ticks left before the frame cap. |
| `ShotPhysics.Finish` | basketball_env.py:79-103 | The loop stops in a completed state. The frame count and the trajectory have each grown by exactly the number of ticks run. |
| `ShotProperties.VelocityAfter` | basketball_env.py:80-81 | After k ticks vx is unchanged and vy has gained exactly k times 0.3. |
| `ShotProperties.HorizontalAfter` | basketball_env.py:81 | After k ticks x has moved by exactly k times vx. |
| `ShotProperties.VerticalAfter` | basketball_env.py:80-82 | After k ticks y has moved by k times the launch vy plus 0.3 times k(k+1)/2. |
| `ShotProperties.Kinematics` | basketball_env.py:80-82 | The closed form of the ball's velocity and position after k ticks. |
| `ShotProperties.TicksCount` | basketball_env.py:89-90 | Each tick adds one frame and appends one trajectory point, keeping the earlier points. |
| `ShotProperties.FlightIsTicks` | basketball_env.py:79-90 | The i-th state of a flight is the state after i + 1 ticks. |
| `ShotProperties.FlightMotion` | basketball_env.py:79-90 | In the i-th state of a flight, the ball has made i + 1 moves, the frame count has risen by i + 1, and i + 1 trajectory points have been appended. |
| `ShotProperties.TickBound` | basketball_env.py:90-103 | A shot in progress within the cap runs at least one tick and at most 401 minus its frame count. A fresh shot runs 1 to 401 ticks. |
| `ShotProperties.FinishIsLast` | basketball_env.py:79-103 | The state the loop stops in is the last state of the flight, or the starting state if no tick ran. |
| `ShotProperties.OnlyLastComplete` | basketball_env.py:99-103 | Within a flight, a state is complete exactly when it is the last one. |
| `ShotProperties.ScoreLatch` | basketball_env.py:94-99 | In a flight that starts unscored, a tick has scored exactly when the ball there is descending and within 28 of the hoop. A scoring tick is the last one, and the score has risen by exactly one then and not before. |
| `ShotProperties.StopCause` | basketball_env.py:94-103 | In a flight that starts unscored, a tick is the last one exactly when it scores, the ball is below the floor or past the right wall, or the frame count exceeds 400. |
| `ShotProperties.MinFromIsMinimum` | basketball_env.py:76-87 | The running minimum ends at its start value or at one of the tick distances. It is at most every tick distance and at most its start value. |
| `ShotProperties.MinDistanceOfFlight` | basketball_env.py:76-87 | The minimum distance of a non-empty flight is one of its tick distances and at most all of them. An empty flight leaves it at +infinity. |
| `ShotProperties.ScoringCircle` | basketball_env.py:85-96 | With an exact square root, the distance is the Euclidean one. A ball is within 28 of the hoop exactly when (x-800)² + (y-150)² < 784. |
| `ShotProperties.ObservationDistance` | basketball_env.py:63-65 | The observation is the ball's x and its Euclidean distance to the hoop centre. |
| `ShotProperties.StepKeepsInv` | basketball_env.py:79-121 | A step keeps the simulator invariant: one trajectory point per frame plus the start point, a score closes the shot, and a shot in progress has no frames yet. It ends complete, with terminated true and truncated false. |
| `ShotProperties.StepFromFreshShot` | basketball_env.py:79-103 | A step on a fresh shot runs 1 to 401 ticks. It ends in the flight's last state, with frame count equal to the number of ticks and one more trajectory point than ticks. It stops for one of the four reasons, and it scores (adding exactly one) exactly when the ball ends descending inside the scoring circle. |
| `ShotProperties.StepWithoutReset` | basketball_env.py:76-118 | A step on a finished shot only overwrites the velocity. Its reward is 100 if that shot scored and -infinity otherwise. |
| `ShotProperties.ScoreNeverDecreases` | basketball_env.py:94-99 | A step never lowers the score and raises it by one exactly when it scores a shot that had not scored. |
| `ShotProperties.StepReward` | basketball_env.py:109-118 | The reward is 100 exactly when the shot scored. Otherwise it is -0.1 times the true minimum distance over the whole flight, less 5 exactly when the ball ended past the right wall or below the floor, and is never positive. |
| `BasketballEnv.BasketballShooterEnv.constructor` | basketball_env.py:29-44 | A new environment has score 0 and a fresh shot that satisfies the object invariant. |
| `BasketballEnv.BasketballShooterEnv.ResetShot` | basketball_env.py:46-56 | Start x is in [100, 600] and start y is 600. The ball is at the start point and the trajectory holds exactly that point. The frame count is 0 and nothing is scored or complete. The score and the velocity are left unchanged. |
| `BasketballEnv.BasketballShooterEnv.Reset` | basketball_env.py:58-61 | The effect of ResetShot, returning the observation of the fresh shot. |
| `BasketballEnv.BasketballShooterEnv.AdvanceTick` | basketball_env.py:80-103 | One pass of the loop body changes the fields exactly as `Tick` does, and lowers the running minimum to the new distance when that is smaller. |
| `BasketballEnv.BasketballShooterEnv.Step` | basketball_env.py:67-123 | The new fields, the observation, the reward and the flags are exactly those of `StepSpec` on the old state. The object invariant is kept, the start point is unchanged, the shot is complete, and the score rose by at most one. |

## Left out

- Rendering (`render`, `close`, the per-tick `render()` call inside the loop, `FPS`, the colours and the pygame window, clock and font): a display side channel that never affects the simulation.
- The gym scaffolding: `metadata`, the `action_space` and `observation_space` declarations, `super().__init__()`, `super().reset(seed=...)`, the `seed` and `options` arguments, the warnings filter, and the empty info dictionary returned by `reset` and `step`.
- `random.randint(100, 600)`: `ResetShot` chooses the start x nondeterministically within [100, 600] instead of drawing it from a random source.
- Floating point: positions, velocities and distances are exact reals, so IEEE rounding, NaN actions and the float32 cast of the observation are not modelled.
- `math.sqrt`, `math.radians`, `math.sin`, `math.cos`: their bodies are not modelled. They are parameters of the model (`MathLib`), and the lemmas state what they assume of them.
- Malformed actions (the wrong number of components): the model's action is always a pair of reals.
- Before the first step the source has no `vx`/`vy` attributes at all. The model's constructor sets them to 0, and no result depends on them before `Step` overwrites them.
- The training and demo drivers (`train_best.py`, `test_best.py`): glue over an external policy-optimisation library, model files, prints and sleeps. They contain no simulation logic.
