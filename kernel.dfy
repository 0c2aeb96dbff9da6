/** The blur-intensity slider and its table of Gaussian kernel sizes. */
module Kernel {

  datatype Option<T> = None | Some(value: T)

  /** Kernel sizes for intensity levels 1 to 5. */
  const KernelMap: seq<int> := [15, 25, 45, 75, 99]

  /** The intensity slider runs from 1 to 5. */
  const MinLevel := 1
  const MaxLevel := 5

  /** The kernel size read as `KernelMap[level - 1]` with Python's list
      indexing: an index in `[-5, 0)` counts back from the end of the table,
      and any other index outside `[0, 5)` raises `IndexError` (`None`). */
  function KernelLookup(level: int): (r: Option<int>)
    ensures r.Some? <==> -|KernelMap| < level <= |KernelMap|
    ensures MinLevel <= level <= MaxLevel ==> r == Some(KernelMap[level - MinLevel])
    ensures -|KernelMap| < level < MinLevel ==> r == Some(KernelMap[|KernelMap| + level - 1])
    ensures r.Some? ==> r.value in KernelMap
  {
    var index := level - 1;
    if 0 <= index < |KernelMap| then Some(KernelMap[index])
    else if -|KernelMap| <= index < 0 then Some(KernelMap[|KernelMap| + index])
    else None
  }

  /** Every entry of the table is an odd kernel size of at least 3, as
      OpenCV's Gaussian blur demands, and larger levels give larger kernels. */
  lemma KernelTableWellFormed()
    ensures |KernelMap| == MaxLevel - MinLevel + 1
    ensures forall i :: 0 <= i < |KernelMap| ==> KernelMap[i] % 2 == 1 && KernelMap[i] >= 3
    ensures forall i, j :: 0 <= i < j < |KernelMap| ==> KernelMap[i] < KernelMap[j]
  {
  }

  /** Every level the slider can produce has a kernel, and it is an odd one;
      the default level 3 gives 45. */
  lemma SliderLevelsHaveOddKernels(level: int)
    requires MinLevel <= level <= MaxLevel
    ensures KernelLookup(level).Some?
    ensures KernelLookup(level).value % 2 == 1 && KernelLookup(level).value >= 3
    ensures level == 3 ==> KernelLookup(level).value == 45
  {
    KernelTableWellFormed();
  }
}
