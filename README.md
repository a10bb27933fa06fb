# Fireworks studio: post feed and particle field

A model of the two pieces of state logic inside `App.jsx` of the fireworks studio page.

- **Post feed** (`post_feed.dfy`, module `PostFeed`). The component holds three pieces of state: a list of posts, a pending image and a pending caption. *Launch* (`addPost`) does nothing while no image is pending. Otherwise it puts a new post at the front of the list, with the clock reading as its id, the object URL of the image, the caption and no comments, and then clears the pending image and caption. *Spark* (`addComment`) appends a comment text, unchecked, to every post whose id matches. Both are written as functions from the old state to the new one, because the component builds a new list and hands it to its state setters. A user session is a sequence of `Event`s folded by `Run`: `Step` maps picking a file and typing a caption to the `onChange` handlers of the upload and caption inputs (App.jsx:82-83), and *Launch* and *Spark* to the button handlers (App.jsx:84, 110).
- **Particle field** (`particle_field.dfy`, module `Fireworks`). A click pushes a burst of 60 particles, each with life 100 (`createFirework`). Every animation frame walks the collection with `forEach`, moves each particle and lowers its life by one, and `splice`s out a particle whose life has reached zero, all while the walk is still going (`animate`). `ParticleField` is a class whose `particles` field is the shared array. `Spawn` is the click handler's loop. `Frame` is the `forEach` loop, written as an index loop over the length the collection had when the frame began. An index at or beyond the current end is passed over, as `forEach` does after the array has shrunk. `Frame` is proved against the function `Sweep`, and `Sweep` is characterised particle by particle (`Fates`, `FrameRule`, `Survivors`). Because of the splice, the particle that slides into a freed slot is neither moved nor aged in that frame.

The clock (`Date.now()`), the browser's object-URL factory, the random angle and speed, and the floating-point position step are all parameters: `now` and `url` per launch, `motions` per click and `glide` per frame.

## Model

| member | source | states |
|---|---|---|
| `PostFeed.AddPost` | App.jsx:56-67 | With no pending image the whole state is unchanged. Otherwise the list grows by one. Its head has the given id, the `blob:` URL created for the pending file at this launch, the pending caption and no comments. Its tail is the old list in the old order. The caption becomes "". In every case the pending image is cleared afterwards. |
| `PostFeed.RelaunchIsNoOp` | App.jsx:57-66 | A second launch right after a first one, without picking a new file, changes nothing. |
| `PostFeed.CommentEach` | App.jsx:70 | Length, order and every post's id, image and caption are preserved. Exactly `text` is appended to the comments of every post whose id matches, even when several posts share the id. All other posts keep their comments. When no id matches, the list is returned unchanged. |
| `PostFeed.AddComment` | App.jsx:69-71 | Only the post list changes, as described for `CommentEach`. The pending image and the caption are untouched. |
| `PostFeed.StepRetains` | App.jsx:56-71 | Any single event keeps every existing post at the tail of the list, in order, with the same id, image and caption, and with its old comments as a prefix of the new ones. |
| `PostFeed.RunRetains` | App.jsx:56-71 | The same holds over any sequence of events: the newest post is always first, and comments are append-only. |
| `PostFeed.LaunchSparkRelaunch` | App.jsx:56-71 | Scenario: pick a file, type "hello", launch, comment "hi" on the new post, then launch again. The result is exactly one post, with caption "hello" and comments ["hi"]. |
| `Fireworks.ParticleField.constructor` | App.jsx:19 | The collection starts empty. |
| `Fireworks.ParticleField.Spawn` | App.jsx:21-31 | The count grows by exactly 60. The old particles are unchanged at the front. Each new particle sits at the click point with full life 100 and the i-th motion drawn. All lives stay within 1..100. |
| `Fireworks.ParticleField.Frame` | App.jsx:37-46 | The new collection is exactly `Sweep` of the old one, and all lives stay within 1..100. |
| `Fireworks.Sweep` | App.jsx:37-46 | One frame never makes the collection larger. |
| `Fireworks.FrameByFate` | App.jsx:37-46 | One frame, particle by particle. Each particle's fate obeys the frame rule. A particle is skipped exactly when the one before it was spliced out. A visited particle has its life lowered by exactly one and is moved. It is removed exactly when its new life is at most zero. The result is the moved and skipped particles in their original order. |
| `Fireworks.FrameRuleIsDeterministic` | App.jsx:37-45 | The frame rule fixes every particle's fate: two fate sequences that both obey it are equal. |
| `Fireworks.NeighbourOfSplicedSurvives` | App.jsx:37-45 | The particle right after a spliced one is skipped. It lands unchanged in the result, at the slot given by the number of particles before it that the frame kept. So two particles that are adjacent when a frame begins are never both removed by it. |
| `Fireworks.SweepKeepsLively` | App.jsx:28-45 | A frame keeps every life within 1..100. |
| `Fireworks.SweepBurnsLife` | App.jsx:37-45 | A frame over a non-empty collection lowers the sum of lives by at least one, because the first particle is always visited. |
| `Fireworks.EveryParticleDies` | App.jsx:37-48 | Once clicks stop, the collection is empty after at most as many frames as the sum of its lives. |
| `Fireworks.SweepOfAppended` | App.jsx:21-45 | Particles pushed at the end do not change what a frame does to the particles already there. Their result is the first part of the new result, unchanged, and at most as many particles as were pushed follow it. |
| `Fireworks.OlderAtFront` | App.jsx:21-48 | Clicks may arrive between any two frames. The particles that were there first stay at the front of the collection, exactly as the same number of frames without any click would leave them. Behind them there are at most the particles that were behind them plus those clicked in. |
| `Fireworks.ClicksDoNotShieldOlderParticles` | App.jsx:21-48 | Clicks may arrive between any two frames. Even so, after as many frames as the sum of the lives present now, the collection holds no more particles than were clicked in since. |
| `Fireworks.UniformSweep` | App.jsx:37-45 | When all lives are equal and above 1, a frame keeps every particle and lowers every life by one. |
| `Fireworks.AllDueSweep` | App.jsx:37-45 | When every particle has life 1, a frame removes only half of them (rounded up) and leaves the rest, still at life 1. |
| `Fireworks.LoneBurstOutlivesItsLife` | App.jsx:21-46 | A burst of 60 alone on the canvas still has 60 particles after 99 frames and 30 after frame 100. One particle is left after frame 104, and none after frame 105. |
| `Fireworks.IntendedFramesClear` | App.jsx:37-45 | With the intended frame (`IntendedSweep`: visit every particle, then drop the expired ones), every particle is gone within 100 frames. |

## Findings

| source | as written | input that shows it | evidently intended | confidence | as-written member | corrected member |
|---|---|---|---|---|---|---|
| App.jsx:37-45 | `particles.splice(i, 1)` inside `particles.forEach` shifts the next particle into slot `i`. The walk then moves on to `i + 1`, so that particle is neither aged nor checked in that frame. | A single burst of 60 particles at life 100, followed by 100 frames with no click: 30 particles remain, and the last one goes only at frame 105. | A particle leaves the canvas in the frame in which its life reaches 0, so a burst is gone after 100 frames. | high; not executed | `Fireworks.LoneBurstOutlivesItsLife` | `Fireworks.IntendedFramesClear` |

`ParticleField.Frame` keeps the behaviour as written, because it is what the page does. `IntendedSweep` and `IntendedFrames` give the corrected frame, and `IntendedFramesClear` proves the intended lifetime about them.

## Left out

- Canvas painting is not modelled: the fading rectangle, the `hsl` colour from `life * 3` and the circle drawn per particle (App.jsx:34-35, 41-44). They have no effect on the state.
- The floating-point position update with `Math.cos`/`Math.sin` is not computed. It is the parameter `glide`, applied once to each visited particle.
- The random angle and speed are not generated. `Spawn` takes them as its `motions` argument, one per particle, so it requires 60 of them. Their ranges ([0, 2π) and [2, 6)) are not tracked.
- `requestAnimationFrame` scheduling, the `useEffect` mount, the canvas sizing and the click listener are not modelled (App.jsx:13-17, 48-53). A frame is one call of `Frame` and a click is one call of `Spawn`. The cleanup at App.jsx:53 removes a fresh closure, so it detaches nothing. That is glue and is not modelled.
- `Date.now()` and `URL.createObjectURL` are inputs given per launch: `now` and `url`. A fresh URL is passed for every launch, as the browser creates a new one on each call. Revoking object URLs is not part of this model.
- All JSX rendering, the card, button and input components, and the per-post comment text field of `AnonymousComments` (App.jsx:73-113) are left out, apart from the handlers that set the pending image and caption and call `addPost` and `addComment`, which `Step` models. The comment field's own state logic, "submit, then clear the field", is not modelled.
- Particles are objects updated in place (`p.life--`). Here they are values in the `particles` sequence, and `Frame` replaces the slot it updates. Nothing else holds a reference to a particle, so no aliasing is lost.
- Ids and lives are unbounded integers. JavaScript numbers are doubles, but the values involved (millisecond timestamps, lives from 100 down to 0) are exact integers.
- The lifetime the page evidently aims for, a burst fully removed after 100 frames, does not hold for the code. The model follows the code, where the splice-while-iterating skip keeps half of a lone burst alive at frame 100 (see Findings).
