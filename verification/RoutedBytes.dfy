/** Routed bytes a token: in every layer the largest expert, times the experts active. */
module RoutedBytes {
  import opened Wrappers
  import opened Arithmetic
  import MapSum
  import opened FormatUpgrades

  type Experts = map<Option<u32>, nat>
  type Layers = map<Option<u32>, Experts>

  function At(layers: Layers, layer: Option<u32>): Experts {
    if layer in layers then layers[layer] else map[]
  }

  function BytesAt(experts: Experts, expert: Option<u32>): nat {
    if expert in experts then experts[expert] else 0
  }

  /** One choice's bytes added to its tensor's layer and expert. */
  function WithChoice(s: Setting, layers: Layers, choice: Choice): Layers {
    var found := FindTensor(s.tensors, choice.tensorId);
    if choice.routedBytes == 0 || found.None? then layers
    else
      var layer, expert := found.value.layer, found.value.expert;
      var experts := At(layers, layer);
      layers[layer := experts[expert := BytesAt(experts, expert) + choice.routedBytes]]
  }

  function Grouped(s: Setting, choices: seq<Choice>): Layers {
    if choices == [] then map[]
    else WithChoice(s, Grouped(s, choices[..|choices| - 1]), choices[|choices| - 1])
  }

  /** A choice is routed through this layer and expert. */
  predicate RoutedThrough(s: Setting, choice: Choice, layer: Option<u32>, expert: Option<u32>) {
    var found := FindTensor(s.tensors, choice.tensorId);
    choice.routedBytes > 0 && found.Some? && found.value.layer == layer && found.value.expert == expert
  }

  /** What all choices together route through one expert of one layer. */
  function ExpertBytes(s: Setting, choices: seq<Choice>, layer: Option<u32>, expert: Option<u32>): nat {
    if choices == [] then 0
    else
      var last := choices[|choices| - 1];
      ExpertBytes(s, choices[..|choices| - 1], layer, expert)
      + if RoutedThrough(s, last, layer, expert) then last.routedBytes else 0
  }

  /** The two-level map holds exactly those sums, for the layers and experts that route anything. */
  lemma {:induction false} GroupedIs(s: Setting, choices: seq<Choice>, layer: Option<u32>, expert: Option<u32>)
    ensures BytesAt(At(Grouped(s, choices), layer), expert) == ExpertBytes(s, choices, layer, expert)
    ensures expert in At(Grouped(s, choices), layer) <==> ExpertBytes(s, choices, layer, expert) > 0
  {
    hide FindTensor;
    if choices != [] {
      GroupedIs(s, choices[..|choices| - 1], layer, expert);
    }
  }

  /** The largest value, or zero for an empty map. */
  ghost function Largest<K>(m: map<K, nat>): (r: nat)
    ensures forall k :: k in m ==> m[k] <= r
    ensures m != map[] ==> exists k :: k in m && m[k] == r
    ensures m == map[] ==> r == 0
  {
    if m == map[] then 0
    else
      var k :| k in m;
      var rest := Largest(m - {k});
      assert forall j :: j in m ==> j == k || j in m - {k};
      if rest > m[k] then rest else m[k]
  }

  method LargestOf(m: Experts) returns (largest: nat)
    ensures largest == Largest(m)
  {
    largest := 0;
    var rest := m.Keys;
    while rest != {}
      invariant rest <= m.Keys && forall k :: k in m && k !in rest ==> m[k] <= largest
      invariant largest == 0 || exists k :: k in m && m[k] == largest
      decreases |rest|
    {
      var k :| k in rest;
      if m[k] > largest {
        largest := m[k];
      }
      rest := rest - {k};
    }
  }

  /** A layer counts its largest expert once for every active one. */
  function Weighed(largest: nat, active: nat): nat {
    largest * active
  }

  ghost function LayerBytes(layers: Layers, active: nat): map<Option<u32>, nat> {
    map layer | layer in layers :: Weighed(Largest(layers[layer]), active)
  }

  /** The sum over the layers. */
  ghost function RoutedTotal(layers: Layers, active: nat): nat {
    MapSum.Sum(LayerBytes(layers, active))
  }

  method RoutedPerToken(s: Setting, choices: seq<Choice>, activeExperts: u32) returns (total: nat)
    ensures total == RoutedTotal(Grouped(s, choices), Max(activeExperts, 1))
  {
    hide WithChoice;
    var layers: Layers := map[];
    for i := 0 to |choices|
      invariant layers == Grouped(s, choices[..i])
    {
      assert choices[..i + 1][..i] == choices[..i];
      layers := WithChoice(s, layers, choices[i]);
    }
    assert choices[..|choices|] == choices;
    total := SumLayers(layers, Max(activeExperts, 1));
  }

  method SumLayers(layers: Layers, active: nat) returns (total: nat)
    ensures total == RoutedTotal(layers, active)
  {
    hide Largest, Weighed;
    total := 0;
    var rest := layers;
    assert LayerBytes(map[], active) == map[];
    while rest != map[]
      invariant total + RoutedTotal(rest, active) == RoutedTotal(layers, active)
      decreases |rest|
    {
      var layer :| layer in rest;
      var largest := LargestOf(rest[layer]);
      OneLayerLess(rest, active, layer);
      total := total + Weighed(largest, active);
      assert (rest - {layer}).Keys == rest.Keys - {layer};
      rest := rest - {layer};
    }
  }

  lemma OneLayerLess(layers: Layers, active: nat, layer: Option<u32>)
    requires layer in layers
    ensures RoutedTotal(layers, active)
            == Weighed(Largest(layers[layer]), active) + RoutedTotal(layers - {layer}, active)
  {
    hide Largest, Weighed;
    MapSum.SumRemove(LayerBytes(layers, active), layer);
    assert LayerBytes(layers, active) - {layer} == LayerBytes(layers - {layer}, active);
  }

  /** No expert of any layer routes more than its layer is counted for. */
  lemma LargestCovers(s: Setting, choices: seq<Choice>, layer: Option<u32>, expert: Option<u32>)
    ensures ExpertBytes(s, choices, layer, expert) <= Largest(At(Grouped(s, choices), layer))
  {
    GroupedIs(s, choices, layer, expert);
  }
}
