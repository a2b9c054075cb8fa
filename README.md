# myhmoments in Dafny

A model of the core of `myhmoments`, a command-line tool that computes
hydropathy moments of the surface regions of a protein. Each surface residue's
alpha carbon is taken in turn as the centre of a sphere. A residue is a member
of the sphere when its distance from the centre, truncated to an integer, is
below the radius. The region's moment is the sum, over the members, of the
unit vector from the centre to the member, scaled by the member's hydropathy
index on the chosen scale. The region's colour comes from the members' mean
index, placed on a ten-colour table spanning the scale's range. The tool then
writes a results table and a UCSF Chimera `.bild` file holding one arrow per
moment.

The modules follow the program's files:

- `hphob_scales.dfy` (`HphobScales`): the seventeen hydropathy scales, each
  keyed by the twenty residue names; scale lookup; minimum and maximum.
- `color_scales.dfy` (`ColorScales`): the forward (blue to red) and the
  reverse colour tables, and `rgb_colors`, which derives them from 8-bit codes.
- `colors.dfy` (`Colors`): `get_color`, the threshold classifier.
- `moments.dfy` (`Moments`): `distance`, `unit_vector`, `get_average` and
  `get_H_moments`. It holds the specification functions and the imperative
  methods proved equal to them.
- `moments_facts.dfy` (`MomentsFacts`): what the moment computation
  guarantees.
- `cli.dfy` (`Cli`): the argument checks, the output names, the table rows
  and the `.bild` arrows of `__main__.py`.
- `pydict.dfy` (`PyDict`): a Python dictionary as a sequence of items in
  insertion order. An assignment to an existing key replaces that key's item
  in place.
- `vectors.dfy` (`Vectors`): three-component vectors over the reals.
- `wrappers.dfy` (`Wrappers`): `Option` and `Result`.

Some Python behaviours are modelled exactly as the code has them:

- **Key matching.** A residue id matches a scale key when the key is a
  prefix of the id (`startswith`). The last matching key wins.
- **Exceptions** are results of type `Fault`:
  - an unknown scale name raises `KeyError`;
  - a residue met before any index was ever set raises
    `UnboundLocalError`;
  - a sphere without members raises `ZeroDivisionError`.
- **The index persists.** The last index set (`H_constant`) carries over
  from residue to residue and from sphere to sphere.
- **Unmatched ids.** A residue whose id matches no key (water, say)
  contributes its raw displacement vector rather than a scaled unit vector.
  It also appends the stale index. `MomentsFacts.StaleIndexExample` shows
  both.
- **Distance** is `int(math.sqrt(...))`. It is modelled as the integer part
  of the square root of the squared distance. It is proved to equal the
  floor of any true square root. For a positive radius, membership in a
  sphere is proved equivalent to an exact test on the squared distance.
- **Colour index.** `get_color` counts the thresholds the value reaches and
  indexes the colour list with that count minus one. A count of zero gives
  index `-1`, which Python reads as the last colour.
- **`linspace`** thresholds are `minimum + t * (maximum - minimum) / 9`, for
  `t` in 0..9.

## Model

| member | source | states |
|---|---|---|
| PyDict.Find | myhmoments/myhmoments/moments.py:55 | the lookup finds an item exactly when the key is in the dictionary, and returns the index of an item with that key |
| PyDict.Get | myhmoments/myhmoments/moments.py:55 | `d[k]` yields a value exactly when `k` is a key; otherwise Python raises `KeyError` |
| PyDict.Put | myhmoments/myhmoments/moments.py:91 | `d[k] = v` adds `k` to the keys; the size grows by one only when `k` was new |
| PyDict.PutPreservesDistinct | myhmoments/myhmoments/moments.py:91 | after an assignment, keys stay distinct and items with other keys keep their place |
| PyDict.GetPut | myhmoments/myhmoments/moments.py:91 | after `d[k] = v`, reading `k` gives `v` and every other key reads as before |
| PyDict.SizeIsKeyCount | myhmoments/myhmoments/moments.py:91 | a dictionary has one item per key |
| PyDict.PutAll | myhmoments/myhmoments/moments.py:60-91 | after assigning a sequence of pairs, every assigned key is present |
| PyDict.PutAllGet | myhmoments/myhmoments/moments.py:60-91 | after assigning pairs that never give one key two values, keys are distinct and every key reads its value |
| Vectors.DistSqSelf | myhmoments/myhmoments/moments.py:27-29 | the squared distance of a point to itself is zero |
| Vectors.DistSqSymmetric | myhmoments/myhmoments/moments.py:27-29 | the squared distance does not depend on the order of the points |
| HphobScales.Lookup | myhmoments/myhmoments/moments.py:55 | `hphob_scales_dict[name]` succeeds exactly when the name is one of the seventeen scale names |
| HphobScales.MaxValue | myhmoments/myhmoments/moments.py:56 | the maximum is one of the scale's values, and no value exceeds it |
| HphobScales.MinValue | myhmoments/myhmoments/moments.py:57 | the minimum is one of the scale's values, and no value is below it |
| HphobScales.OMHSweetWellFormed | myhmoments/myhmoments/hphob_scales.py:14-19 | the OMH_Sweet scale is keyed by the twenty residue names in order |
| HphobScales.KyteDoolitleWellFormed | myhmoments/myhmoments/hphob_scales.py:25-30 | the Kyte_Doolitle scale is keyed by the twenty residue names in order |
| HphobScales.AbrahamLeoWellFormed | myhmoments/myhmoments/hphob_scales.py:36-41 | the Abraham_Leo scale is keyed by the twenty residue names in order |
| HphobScales.BullBreeseWellFormed | myhmoments/myhmoments/hphob_scales.py:47-52 | the Bull_Breese scale is keyed by the twenty residue names in order |
| HphobScales.GuyWellFormed | myhmoments/myhmoments/hphob_scales.py:58-63 | the Guy scale is keyed by the twenty residue names in order |
| HphobScales.MiyazawaWellFormed | myhmoments/myhmoments/hphob_scales.py:68-73 | the Miyazawa scale is keyed by the twenty residue names in order |
| HphobScales.RosemanWellFormed | myhmoments/myhmoments/hphob_scales.py:78-83 | the Roseman scale is keyed by the twenty residue names in order |
| HphobScales.WolfendenWellFormed | myhmoments/myhmoments/hphob_scales.py:88-93 | the Wolfenden scale is keyed by the twenty residue names in order |
| HphobScales.EisenbergWellFormed | myhmoments/myhmoments/hphob_scales.py:98-103 | the Eisenberg scale is keyed by the twenty residue names in order |
| HphobScales.HoppWoodsWellFormed | myhmoments/myhmoments/hphob_scales.py:109-114 | the Hopp_Woods scale is keyed by the twenty residue names in order |
| HphobScales.ManavalanWellFormed | myhmoments/myhmoments/hphob_scales.py:119-124 | the Manavalan scale is keyed by the twenty residue names in order |
| HphobScales.BlackWellFormed | myhmoments/myhmoments/hphob_scales.py:129-134 | the Black scale is keyed by the twenty residue names in order |
| HphobScales.FauchereWellFormed | myhmoments/myhmoments/hphob_scales.py:139-144 | the Fauchere scale is keyed by the twenty residue names in order |
| HphobScales.JaninWellFormed | myhmoments/myhmoments/hphob_scales.py:149-154 | the Janin scale is keyed by the twenty residue names in order |
| HphobScales.RaoArgosWellFormed | myhmoments/myhmoments/hphob_scales.py:159-164 | the Rao_Argos scale is keyed by the twenty residue names in order |
| HphobScales.TanfordWellFormed | myhmoments/myhmoments/hphob_scales.py:169-174 | the Tanford scale is keyed by the twenty residue names in order |
| HphobScales.WellingWellFormed | myhmoments/myhmoments/hphob_scales.py:179-184 | the Welling scale is keyed by the twenty residue names in order |
| HphobScales.AllScalesWellFormed | myhmoments/myhmoments/hphob_scales.py:13-184 | there are seventeen scales, each keyed by the twenty residue names |
| HphobScales.LookupWellFormed | myhmoments/myhmoments/moments.py:55 | every scale a name finds is keyed by the twenty residue names |
| HphobScales.ResidueCodeLengths | myhmoments/myhmoments/hphob_scales.py:13-184 | the residue names are twenty, each three letters long |
| HphobScales.ResidueCodesDistinct | myhmoments/myhmoments/hphob_scales.py:13-184 | the twenty residue names are pairwise distinct |
| HphobScales.AtMostOneMatch | myhmoments/myhmoments/moments.py:76-78 | a residue id starts with at most one key of a scale, so the key loop sets the index at most once |
| HphobScales.KyteDoolitleBounds | myhmoments/myhmoments/hphob_scales.py:25-30 | the default scale has minimum -4.5 and maximum 4.5 |
| HphobScales.BlackBounds | myhmoments/myhmoments/hphob_scales.py:129-134 | the Black scale has minimum 0 and maximum 1 |
| ColorScales.Scaled | myhmoments/myhmoments/color_scales.py:31 | an 8-bit code divided by 255 has every component in [0, 1] |
| ColorScales.CodesShape | myhmoments/myhmoments/color_scales.py:16-27 | the ten codes are keyed 1..10 in order, and every component is in 0..255 |
| ColorScales.RgbColors | myhmoments/myhmoments/color_scales.py:29-38 | the forward table has keys 1..10, each mapping to its code divided by 255; the reverse table has keys 1..10, entry `i` being forward entry `11 - i` |
| ColorScales.TableKeys | myhmoments/myhmoments/color_scales.py:43-44 | both stored tables have exactly the keys 1..10 |
| ColorScales.ReverseMirrorsForward | myhmoments/myhmoments/color_scales.py:43-44 | the stored reverse table is the stored forward table read backwards |
| ColorScales.TablesInUnit | myhmoments/myhmoments/color_scales.py:43-44 | every stored colour has its components in [0, 1] |
| ColorScales.BlueToRed | myhmoments/myhmoments/color_scales.py:43 | the forward table starts at pure blue and ends at pure red |
| ColorScales.LiteralsAreScaledCodes | myhmoments/myhmoments/color_scales.py:16-43 | the stored forward colours agree with the codes divided by 255, to within 10^-16 |
| Colors.Step | myhmoments/myhmoments/colors.py:24 | the gap `(maximum - minimum) / 9` between consecutive thresholds; no contract of its own, its meaning is stated by `Colors.Linspace` and `Colors.ThresholdMono` |
| Colors.Threshold | myhmoments/myhmoments/colors.py:24 | the `t`-th threshold of `linspace(minimum, maximum, 10)`; no contract of its own, see `Colors.LinspaceAt` and `Colors.ThresholdMono` |
| Colors.Linspace | myhmoments/myhmoments/colors.py:24 | ten thresholds, the first being the minimum and the last the maximum, each one step above the one before |
| Colors.LinspaceAt | myhmoments/myhmoments/colors.py:24 | the `t`-th element is the `t`-th threshold |
| Colors.ThresholdMono | myhmoments/myhmoments/colors.py:24 | on an ascending range, a later threshold is never below an earlier one |
| Colors.CountReached | myhmoments/myhmoments/colors.py:39-41 | the count of reached thresholds is at most their number |
| Colors.Entry | myhmoments/myhmoments/colors.py:38-42 | the entry picked is always one of 1..10 |
| Colors.Palette | myhmoments/myhmoments/colors.py:22-36 | the reverse table for the four reverse scales, the forward table otherwise; no contract of its own, see `Colors.ReverseScalesMirror` and `Colors.ForwardScales` |
| Colors.Classify | myhmoments/myhmoments/colors.py:14-42 | the colour `get_color` returns; no contract of its own, its meaning is stated by `Colors.ClassifyBand`, `Colors.EntryOfBand` and `Colors.ClassifyInUnit` |
| Colors.GetColor | myhmoments/myhmoments/colors.py:14-42 | the method builds the colour list and counts the thresholds. Its result is the table entry `Classify` names, with the `-1` index wrapping to the last colour |
| Colors.LinspaceSorted | myhmoments/myhmoments/colors.py:24 | the thresholds ascend |
| Colors.CountMonotone | myhmoments/myhmoments/colors.py:39-41 | a larger value reaches at least as many thresholds |
| Colors.CountSorted | myhmoments/myhmoments/colors.py:39-41 | on ascending thresholds, the reached ones are exactly those before the count |
| Colors.ClassifyBand | myhmoments/myhmoments/colors.py:38-42 | the colour is entry `e` of the scale's table. A value at or above the minimum lies between thresholds `e - 1` and `e`. A value below the minimum gets entry 10 |
| Colors.ClassifyInUnit | myhmoments/myhmoments/colors.py:25-42 | every returned colour has its components in [0, 1] |
| Colors.EntryOfBand | myhmoments/myhmoments/colors.py:38-42 | conversely, a value between thresholds `k - 1` and `k` gets entry `k` |
| Colors.EntryMonotone | myhmoments/myhmoments/colors.py:38-42 | from the minimum up, a higher value never gets a lower entry |
| Colors.MinimumIsFirst | myhmoments/myhmoments/colors.py:38-42 | on a proper range, the minimum takes the first colour |
| Colors.MaximumIsLast | myhmoments/myhmoments/colors.py:38-42 | a value at or above the maximum takes the last colour |
| Colors.ReverseScalesMirror | myhmoments/myhmoments/colors.py:22-36 | Guy, Hopp_Woods, Welling and Bull_Breese get forward entry `11 - e` |
| Colors.ForwardScales | myhmoments/myhmoments/colors.py:22-31 | every other scale gets forward entry `e` |
| Moments.Distance | myhmoments/myhmoments/moments.py:22-30 | `distance`: the integer part of the root of the squared distance; no contract of its own, see `MomentsFacts.DistanceIsTruncatedRoot`, `MomentsFacts.TruncationIsGenerous` and `MomentsFacts.MembershipByCeiling` |
| Moments.UnitVector | myhmoments/myhmoments/moments.py:32-40 | `unit_vector`: the vector over its module, or the vector itself when the module is zero; see `MomentsFacts.UnitVectorHasNormOne`, `MomentsFacts.UnitVectorScalesBack` and `MomentsFacts.UnitVectorOfZero` |
| Moments.Sum | myhmoments/myhmoments/moments.py:46 | the sum of a list; see `MomentsFacts.SumBounds` |
| Moments.Average | myhmoments/myhmoments/moments.py:42-47 | `get_average` on a non-empty list; see `MomentsFacts.AverageBounds` |
| Moments.LastMatch | myhmoments/myhmoments/moments.py:76-81 | the index the key loop leaves set for an id; its meaning is stated by `Moments.LastMatchSpec` |
| Moments.Contribution | myhmoments/myhmoments/moments.py:71-85 | what one member adds to the moment; see `MomentsFacts.CentreAddsNothing` and `MomentsFacts.SphereIsMemberSum` |
| Moments.Visit | myhmoments/myhmoments/moments.py:68-85 | one step of the inner loop; see `MomentsFacts.CentreAddsNothing` and `Moments.BuildSphere` |
| Moments.SphereOf | myhmoments/myhmoments/moments.py:68-85 | the inner loop after `k` residues; see `Moments.BuildSphere`, `MomentsFacts.SphereFaults` and `MomentsFacts.SphereIsMemberSum` |
| Moments.Region | myhmoments/myhmoments/moments.py:63-91 | one step of the outer loop; see `MomentsFacts.RegionKeys`, `MomentsFacts.RegionFaults` and `MomentsFacts.RegionIsMemberMoment` |
| Moments.Regions | myhmoments/myhmoments/moments.py:63-91 | the outer loop after `n` centres; see `MomentsFacts.RegionsKeys`, `MomentsFacts.PositiveRadiusFaults` and `MomentsFacts.RegionsAreMemberPairs` |
| Moments.HMoments | myhmoments/myhmoments/moments.py:49-95 | what `get_H_moments` returns or raises; see `Moments.GetHMoments`, `MomentsFacts.HMomentsKeys` and `MomentsFacts.WellKeyedMoments` |
| Moments.FloorSqrt | myhmoments/myhmoments/moments.py:30 | the integer `r` with `r*r <= x < (r+1)*(r+1)` |
| Moments.LastMatchNone | myhmoments/myhmoments/moments.py:76-78 | no index is found exactly when no key is a prefix of the id |
| Moments.LastMatchIndex | myhmoments/myhmoments/moments.py:76-81 | a found index is the value of a key that is a prefix of the id, and no later key is one |
| Moments.LastMatchSpec | myhmoments/myhmoments/moments.py:76-78 | no index is found exactly when no key is a prefix of the id. Otherwise the found index belongs to a key that is a prefix, and no later key is one |
| Moments.SphereFailPersists | myhmoments/myhmoments/moments.py:68-85 | once a residue raises, the whole sphere raises that exception |
| Moments.RegionsFailPersists | myhmoments/myhmoments/moments.py:63-91 | once a sphere raises, the whole computation raises that exception |
| Moments.ScanKeys | myhmoments/myhmoments/moments.py:76-81 | the key loop leaves the unit vector scaled by the last matching key's value, or the raw displacement when no key matches. The index is set by the last match, or kept from before |
| Moments.BuildSphere | myhmoments/myhmoments/moments.py:64-85 | the inner loop's sum, index list and last index are those of `SphereOf`, including its `UnboundLocalError` |
| Moments.GetHMoments | myhmoments/myhmoments/moments.py:49-95 | `get_H_moments` returns what `HMoments` specifies, raising the same exceptions |
| MomentsFacts.DistanceIsTruncatedRoot | myhmoments/myhmoments/moments.py:22-30 | with a true square root, `distance` is the integer part of the Euclidean distance |
| MomentsFacts.TruncationIsGenerous | myhmoments/myhmoments/moments.py:69-70 | with a true square root, a residue whose exact distance is below the radius is always a member |
| MomentsFacts.DistanceSelf | myhmoments/myhmoments/moments.py:22-30 | a point is at distance 0 from itself |
| MomentsFacts.DistanceSymmetric | myhmoments/myhmoments/moments.py:22-30 | the distance does not depend on the order of the points |
| MomentsFacts.MembershipByCeiling | myhmoments/myhmoments/moments.py:69-70 | for a positive radius `r`, `distance < r` exactly when the squared distance is below `ceil(r)` squared |
| MomentsFacts.UnitVectorOfZero | myhmoments/myhmoments/moments.py:37-40 | the zero vector is returned as it is |
| MomentsFacts.UnitVectorScalesBack | myhmoments/myhmoments/moments.py:36-38 | when the module is nonzero, the unit vector times the module is the vector |
| MomentsFacts.UnitVectorHasNormOne | myhmoments/myhmoments/moments.py:32-40 | with a true square root, a nonzero vector's unit vector has norm 1 |
| MomentsFacts.CentreAddsNothing | myhmoments/myhmoments/moments.py:68-85 | for a positive radius, the centre seen in its own sphere leaves the sum unchanged and appends one index; it fails only when no index is bound yet |
| MomentsFacts.SumBounds | myhmoments/myhmoments/moments.py:46 | the sum of values in `[lo, hi]` lies between `n*lo` and `n*hi` |
| MomentsFacts.AverageBounds | myhmoments/myhmoments/moments.py:42-47 | the mean of values in `[lo, hi]` lies in `[lo, hi]` |
| MomentsFacts.LastMatchWellFormed | myhmoments/myhmoments/moments.py:76-78 | on a scale of the table, an id starting with key `i` gets exactly key `i`'s value |
| MomentsFacts.SphereFaults | myhmoments/myhmoments/moments.py:68-85 | a sphere can only fail with `UnboundLocalError` |
| MomentsFacts.RegionsFaults | myhmoments/myhmoments/moments.py:63-91 | once the scale is found, no `KeyError` is raised |
| MomentsFacts.UnknownScaleIff | myhmoments/myhmoments/moments.py:55 | the computation raises `KeyError` exactly when the name is not a scale name |
| MomentsFacts.NoMembers | myhmoments/myhmoments/moments.py:68-70 | with a radius of 0 or less, no residue is a member |
| MomentsFacts.NonPositiveRadiusFails | myhmoments/myhmoments/moments.py:87 | with a radius of 0 or less and at least one residue, the first centre's empty list raises `ZeroDivisionError` |
| MomentsFacts.CentreIsMember | myhmoments/myhmoments/moments.py:68-85 | with a positive radius, a centre is a member of its own sphere |
| MomentsFacts.RegionFaults | myhmoments/myhmoments/moments.py:63-91 | with a positive radius, the region of a residue of the list can only fail with `UnboundLocalError` |
| MomentsFacts.PositiveRadiusFaults | myhmoments/myhmoments/moments.py:63-91 | with a positive radius, the outer loop can only fail with `UnboundLocalError` |
| MomentsFacts.PositiveRadiusOnlyUnbound | myhmoments/myhmoments/moments.py:49-95 | with a positive radius and a known scale, the only possible exception is `UnboundLocalError` |
| MomentsFacts.PointsStep | myhmoments/myhmoments/moments.py:63 | the first `n` centres' coordinates are the first `n - 1` plus the last one |
| MomentsFacts.RegionKeys | myhmoments/myhmoments/moments.py:91 | one region adds its centre to the keys, keeps them distinct and adds at most one item |
| MomentsFacts.RegionsKeys | myhmoments/myhmoments/moments.py:63-91 | the moments are keyed by exactly the centres' coordinates, once each, at most one per centre |
| MomentsFacts.HMomentsKeys | myhmoments/myhmoments/moments.py:49-95 | the result has the centres' coordinates as its keys, once each |
| MomentsFacts.SphereIndicesInScale | myhmoments/myhmoments/moments.py:76-85 | every index appended, and the index carried over, is a value of the scale |
| MomentsFacts.RegionsLastInScale | myhmoments/myhmoments/moments.py:63-85 | the index carried from sphere to sphere is always a value of the scale |
| MomentsFacts.RegionMeanInRange | myhmoments/myhmoments/moments.py:87 | every region's mean lies between the scale's minimum and maximum |
| MomentsFacts.RegionColourBand | myhmoments/myhmoments/moments.py:87-90 | every region's mean lies between the scale's minimum and maximum. Its colour is that of the threshold band it falls in, so the `-1` wrap never happens |
| MomentsFacts.MemberSum | myhmoments/myhmoments/moments.py:68-85 | reference definition: the sum over the residues within the radius of their unit vectors scaled by their own index; related to the loop by `MomentsFacts.SphereIsMemberSum` |
| MomentsFacts.MemberIndices | myhmoments/myhmoments/moments.py:85 | reference definition: the members' own indices, in order; related to the loop by `MomentsFacts.SphereIsMemberSum` |
| MomentsFacts.MemberMoment | myhmoments/myhmoments/moments.py:85-91 | reference definition: the member sum coloured by the members' mean index; related to the loop by `MomentsFacts.RegionIsMemberMoment` and `MomentsFacts.WellKeyedMoments` |
| MomentsFacts.SphereIsMemberSum | myhmoments/myhmoments/moments.py:68-85 | when every id matches a key, a sphere is the plain sum of its members' scaled unit vectors and the list of their indices |
| MomentsFacts.CentreIsMemberIndex | myhmoments/myhmoments/moments.py:68-85 | with a positive radius, a centre's member list is never empty |
| MomentsFacts.RegionIsMemberMoment | myhmoments/myhmoments/moments.py:63-91 | when every id matches, each centre's step stores its plain-sum moment under its coordinates |
| MomentsFacts.RegionsAreMemberPairs | myhmoments/myhmoments/moments.py:63-91 | when every id matches, the outer loop makes exactly the plain-sum assignments, in order |
| MomentsFacts.MemberPairs | myhmoments/myhmoments/moments.py:63-91 | the plain-sum assignments, one per centre in order |
| MomentsFacts.MemberPairsGet | myhmoments/myhmoments/moments.py:91 | these assignments read back as each centre's moment |
| MomentsFacts.CentresHaveMembers | myhmoments/myhmoments/moments.py:68-85 | with a positive radius, every centre has members |
| MomentsFacts.WellKeyedMoments | myhmoments/myhmoments/moments.py:49-95 | with a positive radius, a known scale and every id matching a key, the computation succeeds. Each centre's coordinates map to the plain sum over its members, coloured by their mean index |
| MomentsFacts.FloorSqrtOfSquare | myhmoments/myhmoments/moments.py:30 | the integer part of the root of a perfect square is its root |
| MomentsFacts.NoKeyMatches | myhmoments/myhmoments/moments.py:76-78 | an id whose first three letters are not a residue name matches no key of a scale |
| MomentsFacts.WaterIsNoResidue | myhmoments/myhmoments/hphob_scales.py:13-184 | `HOH` is not a residue name of the scales |
| MomentsFacts.StaleIndexExample | myhmoments/myhmoments/moments.py:71-85 | a water after an alanine adds its raw displacement to the moment and repeats the alanine's index |
| MomentsFacts.UnboundIndexExample | myhmoments/myhmoments/moments.py:85 | a water met before any matched residue raises `UnboundLocalError` |
| Cli.EndsWith | myhmoments/myhmoments/__main__.py:99 | `str.endswith`: the last characters are the suffix; see `Cli.PdbNames` |
| Cli.Acceptable | myhmoments/myhmoments/__main__.py:99-118 | the arguments the checks let through; `Cli.Validate` succeeds exactly on them |
| Cli.Validate | myhmoments/myhmoments/__main__.py:99-118 | the run goes on, with its arguments unchanged, exactly when the input ends in `.pdb`, the threshold is in [0.2, 0.8] and the radius is in [4.0, 10.0]. Otherwise one of the three exceptions is raised, carrying the offending value |
| Cli.ValidateErrorOrder | myhmoments/myhmoments/__main__.py:99-118 | a wrong extension is reported whatever the other values; a wrong threshold is reported before a wrong radius |
| Cli.DefaultsAccepted | myhmoments/myhmoments/__main__.py:52-94 | the default output, threshold, radius and scale pass the checks for any `.pdb` input |
| Cli.PdbNames | myhmoments/myhmoments/__main__.py:99 | a name ends in `.pdb` exactly when its last four characters are a dot followed by `pdb` |
| Cli.ChoicesAreScales | myhmoments/myhmoments/__main__.py:92 | the scale choices are the scale table's names, in the same order |
| Cli.ChoiceIsKnown | myhmoments/myhmoments/__main__.py:92 | every accepted choice is found in the scale table |
| Cli.AcceptedRunFaults | myhmoments/myhmoments/__main__.py:115-132 | after the checks pass, the computation raises neither `KeyError` nor `ZeroDivisionError` |
| Cli.ReplaceDots | myhmoments/myhmoments/__main__.py:104 | the prefix has the length of the given name and contains no dot. Every dot becomes `_` and every other character is kept |
| Cli.ReplaceDotsIdempotent | myhmoments/myhmoments/__main__.py:104 | rewriting the dots twice gives what rewriting once does |
| Cli.ReplaceDotsKeeps | myhmoments/myhmoments/__main__.py:104 | a name without dots is kept as it is |
| Cli.OutputNames | myhmoments/myhmoments/__main__.py:104-107 | each output name is the rewritten prefix followed by `.tab`, `.bild` or `.cmd`; no dot comes before the extension, and the three names are distinct |
| Cli.OutputNamesCollide | myhmoments/myhmoments/__main__.py:104-107 | two prefixes give the same file names exactly when they agree once their dots are rewritten |
| Cli.DottedPrefixCollides | myhmoments/myhmoments/__main__.py:104-107 | `a.b` and `a_b` give the same file names |
| Cli.TabRows | myhmoments/myhmoments/__main__.py:141-144 | one row per moment, in dictionary order. Row `i` is numbered `i + 1` and holds the centre and the moment vector |
| Cli.Drawn | myhmoments/myhmoments/__main__.py:161 | a moment is drawn when none of its components is zero; see `Cli.ArrowsSound` and `Cli.ArrowsComplete` |
| Cli.ArrowFor | myhmoments/myhmoments/__main__.py:162-166 | the arrow from the centre to the centre plus the moment, in its colour; see `Cli.ArrowsSound` |
| Cli.Arrows | myhmoments/myhmoments/__main__.py:160-166 | there are no more arrows than moments |
| Cli.BildArrows | myhmoments/myhmoments/__main__.py:159-166 | the `.bild` loop writes exactly the arrows `Arrows` specifies, in dictionary order |
| Cli.ArrowsSound | myhmoments/myhmoments/__main__.py:160-166 | every arrow belongs to a moment with no zero component. It runs from the centre to the centre plus the moment, in the moment's colour |
| Cli.ArrowsComplete | myhmoments/myhmoments/__main__.py:160-166 | every moment with no zero component gets its arrow |
| Cli.UndrawnLeaveNoArrow | myhmoments/myhmoments/__main__.py:161 | a moment with a zero component adds no arrow |

## Left out

- File and terminal I/O are not modelled: reading the PDB file, the
  `stderr` messages, the `.tab` file copy of the table (lines 146-157, the
  same rows as the terminal), the `.cmd` macro text and the Chimera
  subprocess with its prompts. The model covers the values written, not
  their `%8.4f`/`%f` formatting.
- Argument parsing is not modelled. `argparse` itself, the `required` flag
  and rejecting values not among the `choices` are all argparse's own
  behaviour. The choices, the defaults and the options the checks read are
  kept as constants and `Args` fields.
- Floating point is replaced by exact reals: thresholds, means, division
  by 255 and the `0.2`/`0.8`/`4.0`/`10.0` comparisons lose their rounding.
  Exact reals have no NaN or infinity.
  `ColorScales.LiteralsAreScaledCodes` bounds how far the stored decimal
  colours are from the exact quotients.
- `math.sqrt` is a parameter `sqrt`. `distance` does not need it, because
  its integer part is computed exactly (`Moments.FloorSqrt`). Lemmas that
  need a true square root assume it as `SqrtAt`.
- `rgb_colors` in Python builds the two tables and returns nothing; the
  module's tables are the literals on lines 43-44. `ColorScales.RgbColors`
  returns the tables it builds, so that they can be compared with the
  literals.
- The counter `count` of `get_H_moments` only feeds a `stderr` message and
  is not modelled.
- `surface.py` (DSSP surface residues and alpha-carbon extraction) is not
  part of this model. The residue coordinates are a parameter of
  `get_H_moments`.
- The help text of `--hyphob_scale` names Eisenberg as the default. The
  code's default, `Kyte_Doolitle`, is what `Cli.DefaultScale` holds.
- Python `startswith` on strings is modelled as the sequence prefix test.
  There is no Unicode handling beyond comparing characters.
- MomentsFacts.MemberMoment: on a point with no members it gives a zero
  vector and the colour of a zero mean. Under the conditions of
  `MomentsFacts.WellKeyedMoments` no centre has zero members
  (`MomentsFacts.CentresHaveMembers`), so this value is never observed.
- Cli.AcceptedRunFaults: holds for real-valued arguments only. In Python a
  NaN threshold or radius passes the checks on lines 111 and 115, because
  every comparison with NaN is false. With a NaN radius `dis < my_radius` is
  never true, every sphere is empty and `get_average` raises
  `ZeroDivisionError`. Exact reals have no NaN, so the model cannot express
  this run.
