/**
 * The ten RGB shades a trail fades through, brightest green at the head
 * (index 0) and darkest at the tail (index 9).
 */
module Palette {

  datatype Rgb = Rgb(r: nat, g: nat, b: nat)

  /** The trail palette, entry by entry as the program declares it. */
  const Colors: seq<Rgb> := [
    Rgb(100, 250, 100),
    Rgb(90, 225, 90),
    Rgb(80, 200, 80),
    Rgb(70, 175, 70),
    Rgb(60, 150, 60),
    Rgb(50, 125, 50),
    Rgb(40, 100, 40),
    Rgb(30, 75, 30),
    Rgb(20, 50, 20),
    Rgb(10, 25, 10)
  ]

  /**
   * Every shade is a grey-free green: red and blue are equal, and both
   * channels fall in steps of 10 and 25 from the head.
   */
  lemma ShadeAt(i: nat)
    requires i < |Colors|
    ensures |Colors| == 10
    ensures Colors[i] == Rgb(100 - 10 * i, 250 - 25 * i, 100 - 10 * i)
    ensures Colors[i].r == Colors[i].b
  {
  }

  /** The green channel runs from 250 at the head down to 25 at the tail. */
  lemma GreenEnds()
    ensures Colors[0].g == 250 && Colors[|Colors| - 1].g == 25
  {
  }

  /** A shade further down the trail is strictly darker in green. */
  lemma GreenStrictlyDecreasing(i: nat, j: nat)
    requires i < j < |Colors|
    ensures Colors[i].g > Colors[j].g
    ensures Colors[i].g - Colors[j].g == 25 * (j - i)
  {
  }
}
