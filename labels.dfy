/** The 18 classes of the ATR human-parsing taxonomy and the three label groups built from them. */
module Labels {

  const Background: int := 0
  const Hat: int := 1
  const Hair: int := 2
  const Sunglasses: int := 3
  const UpperClothes: int := 4
  const Skirt: int := 5
  const Pants: int := 6
  const Dress: int := 7
  const Belt: int := 8
  const LeftShoe: int := 9
  const RightShoe: int := 10
  const Face: int := 11
  const LeftLeg: int := 12
  const RightLeg: int := 13
  const LeftArm: int := 14
  const RightArm: int := 15
  const Bag: int := 16
  const Scarf: int := 17

  /** The label ids in the order they are declared. */
  const AtrIds: seq<int> := [Background, Hat, Hair, Sunglasses, UpperClothes, Skirt, Pants, Dress,
    Belt, LeftShoe, RightShoe, Face, LeftLeg, RightLeg, LeftArm, RightArm, Bag, Scarf]

  const ClothingLabels: set<int> := {UpperClothes, Skirt, Pants, Dress, Belt, Bag, Scarf}
  const BodyLabels: set<int> := {LeftArm, RightArm, LeftLeg, RightLeg}
  const HeadLabels: set<int> := {Face, Hair, Hat, Sunglasses}

  /**
   * The ids are exactly 0..17 in declaration order (so they are distinct),
   * the groups have the stated members and are pairwise disjoint, and the
   * only ids in no group are the background and the two shoes.
   */
  lemma Taxonomy()
    ensures |AtrIds| == 18 && forall k :: 0 <= k < |AtrIds| ==> AtrIds[k] == k
    ensures ClothingLabels == {4, 5, 6, 7, 8, 16, 17}
    ensures BodyLabels == {12, 13, 14, 15}
    ensures HeadLabels == {1, 2, 3, 11}
    ensures ClothingLabels !! BodyLabels && ClothingLabels !! HeadLabels && BodyLabels !! HeadLabels
    ensures forall l :: 0 <= l < 18 ==>
      (l in ClothingLabels || l in BodyLabels || l in HeadLabels <==>
       l != Background && l != LeftShoe && l != RightShoe)
  {
  }
}
