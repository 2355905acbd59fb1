# Habitat simulation evaluator: configuration overlay and metric reductions

A Dafny model of the logic in `HabitatSimEvaluator`, the abstract base class that
evaluates navigation agents in the Habitat simulator. The class does three
things of its own:

- **Physics overlay** (`overwrite_simulator_config`): every entry of the
  configuration's `PHYSICS_SIMULATOR` section is written into its `SIMULATOR`
  section, in place. A value that is itself a `Config` section is merged one
  field at a time into the existing `SIMULATOR[k]`. Any other value replaces
  `SIMULATOR[k]`. Modelled in `simulator_config.dfy` (module `SimulatorConfig`).
  `RunConfig` is a class whose `simulator` and `physicsSimulator` map fields
  stand for the two sections. `OverwriteSimulatorConfig` loops over the physics
  keys, and `OverwriteKey` (the loop body) loops over a section's fields. Both
  are proved against the pure specification `Overlay`.
- **Averaging** (`compute_avg_metrics`): each metric's values are summed over
  all episodes into a zero-defaulted accumulator. Each sum is then divided by
  the total number of episodes. Modelled in `metrics.dfy` (module `Metrics`).
  `ComputeAvgMetrics` keeps the outer loop, and `AddEpisodeMetrics` is the
  inner loop. Both are proved against `EpisodeSum`, a ghost reference sum over
  the episodes. Values are exact `real`s.
- **Extraction** (`extract_metrics`): each episode's metrics are projected onto
  a list of requested names. The lookup is strict. Modelled as the pure
  function `ExtractMetrics`, which returns a `Result` whose error names a
  missing metric.

The loops iterate over Python dictionaries. In the model they pick keys from a
set in an unspecified order, so every property holds whatever order the
dictionary yields. The lemmas `EpisodeSumRemove` and `OverlayIsPerKey` state
this order independence outright.

Behaviour of the code that a reader might not expect, and that the model follows:

- Averaging an empty collection divides nothing and returns an empty map,
  because the final comprehension runs over an empty accumulator. The same
  happens when every episode's metric map is empty. The code never divides by
  zero here.
- The overlay fails (Python `KeyError`, or `TypeError` when `SIMULATOR[k]` is
  not a section) only for a NON-EMPTY physics section. `SIMULATOR[k]` is first
  read inside the inner loop, so an empty section is skipped even when
  `SIMULATOR[k]` is missing or is a scalar.
- On failure the sections already visited stay overlaid. The failing key and
  the keys not yet visited keep their old values (`OverwriteSimulatorConfig`'s
  last postcondition).

## Model

| member | source | states |
|---|---|---|
| `SimulatorConfig.OverwriteSimulatorConfig` | src/evaluators/habitat_sim_evaluator.py:37-42 | `PHYSICS_SIMULATOR` is unchanged. The call succeeds exactly when no key blocks it. On success `SIMULATOR` becomes `Overlay(old SIMULATOR, PHYSICS_SIMULATOR)`. On failure the reported key blocks, and it is reported as missing exactly when it was absent; every key then holds either its old value or its overlaid value |
| `SimulatorConfig.OverwriteKey` | src/evaluators/habitat_sim_evaluator.py:38-42 | One key: fails, writing nothing, exactly when the key blocks. Otherwise the entry becomes its overlaid value after a field-by-field inner loop. Every other key of `SIMULATOR` is untouched |
| `SimulatorConfig.Overlay` | src/evaluators/habitat_sim_evaluator.py:37-42 | A non-section override replaces `SIMULATOR[k]`. A section override onto a section copies each of its fields and keeps the fields it does not name. Keys absent from `PHYSICS_SIMULATOR` keep their values. A section override never creates a key, and a blocked key keeps its old value. The result holds exactly the old keys plus the keys of the non-section overrides |
| `SimulatorConfig.MergeEntry` | src/evaluators/habitat_sim_evaluator.py:38-42 | One entry: a scalar override replaces the value. A section override onto a section yields the union of the fields, with the override winning on shared fields. A section override onto a non-section leaves it as it was |
| `SimulatorConfig.OverlayIdempotent` | src/evaluators/habitat_sim_evaluator.py:37-42 | Overlaying a second time gives the same `SIMULATOR` as overlaying once |
| `SimulatorConfig.OverlayStaysMergeable` | src/evaluators/habitat_sim_evaluator.py:38-40 | If the first overlay cannot fail, a second overlay on its result cannot fail either |
| `SimulatorConfig.OverlayIsPerKey` | src/evaluators/habitat_sim_evaluator.py:37-42 | A key's overlaid entry, and whether it blocks, depend only on that key's old entry, so the key order of the loop does not matter |
| `SimulatorConfig.OverlayExample` | src/evaluators/habitat_sim_evaluator.py:37-42 | `{"A": 1, "B": {"x": 1, "y": 2}}` overlaid with `{"A": 9, "B": {"x": 8}}` succeeds and gives `{"A": 9, "B": {"x": 8, "y": 2}}` |
| `Metrics.ComputeAvgMetrics` | src/evaluators/habitat_sim_evaluator.py:71-76 | The result's keys are exactly the metric names found in any episode. Each value is that metric's sum over all episodes divided by the total episode count. The result is empty exactly when every episode's metric map is empty, which includes the empty collection |
| `Metrics.AddEpisodeMetrics` | src/evaluators/habitat_sim_evaluator.py:73-74 | The inner loop adds each of an episode's metrics to the running totals, starting from zero for a name not seen before, and adds no other name |
| `Metrics.AccumulateEpisode` | src/evaluators/habitat_sim_evaluator.py:72-74 | Totals over the episodes visited so far, plus one more episode, are the totals over the visited episodes and that one |
| `Metrics.MetricNamesAdd` | src/evaluators/habitat_sim_evaluator.py:73-74 | Visiting one more episode adds exactly its metric names to the names seen |
| `Metrics.EpisodeSumRemove` | src/evaluators/habitat_sim_evaluator.py:72-74 | The sum can start from any episode: it equals that episode's contribution plus the sum over the rest, so the order of the additions does not matter |
| `Metrics.EpisodeSumAbsent` | src/evaluators/habitat_sim_evaluator.py:71-74 | A metric that no episode reports sums to zero |
| `Metrics.EpisodeSumOnlyHolders` | src/evaluators/habitat_sim_evaluator.py:72-75 | Episodes that lack a metric add nothing to its sum. The sum over all episodes equals the sum over the episodes that report it, while the divisor still counts every episode |
| `Metrics.EpisodeSumUniform` | src/evaluators/habitat_sim_evaluator.py:72-74 | When every episode reports a metric with the same value, the sum adds that value once per episode |
| `Metrics.AverageOfUniformMetric` | src/evaluators/habitat_sim_evaluator.py:75 | When every episode of a non-empty collection reports a metric with the same value, the average is that value |
| `Metrics.NoMetricNames` | src/evaluators/habitat_sim_evaluator.py:71-75 | No metric name is found exactly when every episode's map is empty. If some name is found, there is at least one episode, so the division is defined |
| `Metrics.ExtractMetrics` | src/evaluators/habitat_sim_evaluator.py:92-97 | Succeeds exactly when every requested name is present in every episode. On success it has the same episode keys as the input, and each episode holds exactly the requested names with the input's values. On failure the reported name was requested and some episode lacks it |
| `Metrics.FirstMissing` | src/evaluators/habitat_sim_evaluator.py:95 | The name a failed lookup reports was requested and is absent from some episode |
| `Metrics.Narrow` | src/evaluators/habitat_sim_evaluator.py:94-96 | One episode's projection holds exactly the requested names, each with the episode's own value |
| `Metrics.NarrowTwice` | src/evaluators/habitat_sim_evaluator.py:94-96 | Projecting an episode onto some names and then onto a subset of them equals projecting it onto the subset directly |
| `Metrics.ExtractMetricsNarrows` | src/evaluators/habitat_sim_evaluator.py:92-97 | Extracting a subset of names from an extraction equals extracting them directly, so extracting the same names twice changes nothing |
| `Metrics.EpisodeSumExtracted` | src/evaluators/habitat_sim_evaluator.py:92-97 | Extraction keeps the sum, and so the average, of every extracted metric |

## Left out

- The import-availability check after the merge (src/evaluators/habitat_sim_evaluator.py:43-54) imports foreign simulator modules and prints on failure. It is not modelled. The merge has already changed `SIMULATOR` before that check runs.
- The constructor (src/evaluators/habitat_sim_evaluator.py:18-29) loads the configuration from files through an external library. It is not modelled. `RunConfig`'s constructor takes the two loaded sections as values.
- `generate_video`, `generate_map` and `evaluate_and_get_maps` (src/evaluators/habitat_sim_evaluator.py:99-155) only raise `NotImplementedError`. The behaviour they describe drives the external simulator and policy, so they are not modelled.
- Floating-point rounding in the sums and the division is not modelled. Values are exact reals, so the result does not depend on the order of the additions, although float results can.
- Python object aliasing is not modelled. Line 42 stores a reference to the physics value, and the model copies immutable values instead.
- Dictionary insertion order is not modelled. Maps are unordered, so the order of episodes in the result of extraction and averaging is not represented.
- `ExtractMetrics`: when several requested names are missing, Python reports the first one missing from the first failing episode in dictionary order. The model reports the first name in `metricNames` that some episode lacks.
- `OverwriteSimulatorConfig`: when several keys block, Python reports the first one in dictionary order. The model reports some blocking key. Which keys are already overlaid on failure depends on that order, so the postcondition states the property of every key rather than the exact set.
- `OverwriteSimulatorConfig`: assumes that both `SIMULATOR` and `PHYSICS_SIMULATOR` are present, because `RunConfig` always holds both sections. In Python, a missing `PHYSICS_SIMULATOR` raises an attribute error at line 37. A missing `SIMULATOR` raises at line 40 or 42 once a non-section override or a non-empty section override is reached. Those error paths are not modelled.
- A non-section configuration value is modelled as an opaque literal. The overlay only ever copies such values whole.
