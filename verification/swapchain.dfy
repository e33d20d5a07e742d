/** The device, surface-format, present-mode, extent and image-count choices of the
    Vulkan renderer (app/graphics/vulkan-test.cpp), and its frame index. Vulkan
    enumerants carry their values from the Vulkan headers; what the driver reports
    (queue families, surface support, formats, modes, capabilities, window size) is
    passed in. */
module Swapchain {

  type uint32 = x: int | 0 <= x <= 0xFFFF_FFFF

  const Uint32Max: uint32 := 0xFFFF_FFFF

  const FormatUndefined: int := 0
  const FormatB8G8R8A8Unorm: int := 44
  const ColorSpaceSrgbNonlinear: int := 0

  const PresentModeImmediate: int := 0
  const PresentModeMailbox: int := 1
  const PresentModeFifo: int := 2

  const QueueGraphicsBit: bv32 := 1

  const MaxFramesInFlight: nat := 2

  // ---------------------------------------------------------------------------
  // Queue families

  /** `QueueFamilyIndices`, whose fields start at -1 and -2. */
  datatype QueueFamilyIndices = QueueFamilyIndices(graphicsFamily: int, presentFamily: int)

  const NoFamilies: QueueFamilyIndices := QueueFamilyIndices(-1, -2)

  /** `isComplete`. */
  predicate IsComplete(q: QueueFamilyIndices) {
    q.graphicsFamily >= 0 && q.presentFamily >= 0
  }

  /** One `VkQueueFamilyProperties`: its queue count and flags. */
  datatype QueueFamily = QueueFamily(queueCount: uint32, queueFlags: bv32)

  predicate GraphicsCapable(f: QueueFamily) {
    f.queueCount > 0 && f.queueFlags & QueueGraphicsBit != 0
  }

  predicate PresentCapable(f: QueueFamily, supported: bool) {
    f.queueCount > 0 && supported
  }

  /** The last graphics-capable family among the first `n`, or -1. */
  function LastGraphics(families: seq<QueueFamily>, n: nat): (g: int)
    requires n <= |families|
    ensures g == -1 || (0 <= g < n && GraphicsCapable(families[g]))
    ensures forall k :: g < k < n ==> !GraphicsCapable(families[k])
  {
    if n == 0 then -1
    else if GraphicsCapable(families[n - 1]) then n - 1
    else LastGraphics(families, n - 1)
  }

  /** The last present-capable family among the first `n`, or -2. */
  function LastPresent(families: seq<QueueFamily>, support: seq<bool>, n: nat): (p: int)
    requires n <= |families| == |support|
    ensures p == -2 || (0 <= p < n && PresentCapable(families[p], support[p]))
    ensures forall k :: 0 <= k < n && p < k ==> !PresentCapable(families[k], support[k])
  {
    if n == 0 then -2
    else if PresentCapable(families[n - 1], support[n - 1]) then n - 1
    else LastPresent(families, support, n - 1)
  }

  /** The indices after looking at the first `n` families without stopping. */
  function Scanned(families: seq<QueueFamily>, support: seq<bool>, n: nat): QueueFamilyIndices
    requires n <= |families| == |support|
  {
    QueueFamilyIndices(LastGraphics(families, n), LastPresent(families, support, n))
  }

  /** `findQueueFamilies`: each family with queues overwrites the graphics index when it
      has the graphics bit and the present index when the surface supports it; the
      scan stops after the first family at which both are set. `support[i]` is what
      `vkGetPhysicalDeviceSurfaceSupportKHR` reports for family i. */
  method FindQueueFamilies(families: seq<QueueFamily>, support: seq<bool>) returns (indices: QueueFamilyIndices)
    requires |support| == |families|
    ensures exists n :: (0 <= n <= |families| && indices == Scanned(families, support, n)
                         && (n == |families| || IsComplete(indices))
                         && forall m :: 0 <= m < n ==> !IsComplete(Scanned(families, support, m)))
    ensures indices.graphicsFamily == -1
      || (0 <= indices.graphicsFamily < |families| && GraphicsCapable(families[indices.graphicsFamily]))
    ensures indices.presentFamily == -2
      || (0 <= indices.presentFamily < |families|
          && PresentCapable(families[indices.presentFamily], support[indices.presentFamily]))
  {
    indices := NoFamilies;
    var i := 0;
    while i < |families|
      invariant 0 <= i <= |families|
      invariant indices == Scanned(families, support, i)
      invariant forall m :: 0 <= m <= i ==> !IsComplete(Scanned(families, support, m))
    {
      if families[i].queueCount > 0 {
        if families[i].queueFlags & QueueGraphicsBit != 0 {
          indices := indices.(graphicsFamily := i);
        }
        if support[i] {
          indices := indices.(presentFamily := i);
        }
      }
      assert indices == Scanned(families, support, i + 1);
      if IsComplete(indices) {
        return;
      }
      i := i + 1;
    }
  }

  /** Looking at more families never loses a found index. */
  lemma {:induction false} ScannedMonotone(families: seq<QueueFamily>, support: seq<bool>, m: nat, n: nat)
    requires m <= n <= |families| == |support|
    ensures LastGraphics(families, m) >= 0 ==> LastGraphics(families, n) >= 0
    ensures LastPresent(families, support, m) >= 0 ==> LastPresent(families, support, n) >= 0
    decreases n - m
  {
    if m < n {
      ScannedMonotone(families, support, m, n - 1);
    }
  }

  /** The scan ends complete exactly when some family can do graphics and some family
      can present. */
  lemma FindQueueFamiliesCompleteness(families: seq<QueueFamily>, support: seq<bool>, indices: QueueFamilyIndices, n: nat)
    requires n <= |families| == |support|
    requires indices == Scanned(families, support, n) && (n == |families| || IsComplete(indices))
    ensures IsComplete(indices) <==>
      (exists g :: 0 <= g < |families| && GraphicsCapable(families[g]))
      && (exists p :: 0 <= p < |families| && PresentCapable(families[p], support[p]))
  {
    var all := |families|;
    if (exists g :: 0 <= g < all && GraphicsCapable(families[g]))
      && (exists p :: 0 <= p < all && PresentCapable(families[p], support[p])) {
      var g :| 0 <= g < all && GraphicsCapable(families[g]);
      var p :| 0 <= p < all && PresentCapable(families[p], support[p]);
      ScannedMonotone(families, support, g + 1, all);
      ScannedMonotone(families, support, p + 1, all);
    }
  }

  /** `isDeviceSuitable`: complete queue families and at least one surface format and
      one present mode. */
  method IsDeviceSuitable(families: seq<QueueFamily>, support: seq<bool>, formats: seq<SurfaceFormat>, modes: seq<int>)
    returns (suitable: bool)
    requires |support| == |families|
    ensures suitable <==>
      && (exists g :: 0 <= g < |families| && GraphicsCapable(families[g]))
      && (exists p :: 0 <= p < |families| && PresentCapable(families[p], support[p]))
      && |formats| > 0 && |modes| > 0
  {
    var indices := FindQueueFamilies(families, support);
    ghost var n :| 0 <= n <= |families| && indices == Scanned(families, support, n)
      && (n == |families| || IsComplete(indices));
    FindQueueFamiliesCompleteness(families, support, indices, n);
    suitable := IsComplete(indices) && |formats| > 0 && |modes| > 0;
  }

  // ---------------------------------------------------------------------------
  // Surface format and present mode

  datatype SurfaceFormat = SurfaceFormat(format: int, colorSpace: int)

  /** 32-bit BGRA in the sRGB colour space. */
  const Preferred: SurfaceFormat := SurfaceFormat(FormatB8G8R8A8Unorm, ColorSpaceSrgbNonlinear)

  /** The first entry from `i` on equal to the preferred format, else `fallback`. */
  function FirstPreferred(formats: seq<SurfaceFormat>, i: nat, fallback: SurfaceFormat): (r: SurfaceFormat)
    requires i <= |formats|
    ensures Preferred in formats[i..] ==> r == Preferred
    ensures Preferred !in formats[i..] ==> r == fallback
    decreases |formats| - i
  {
    if i == |formats| then fallback
    else if formats[i].format == FormatB8G8R8A8Unorm && formats[i].colorSpace == ColorSpaceSrgbNonlinear then formats[i]
    else
      assert formats[i..] == [formats[i]] + formats[i + 1..];
      FirstPreferred(formats, i + 1, fallback)
  }

  /** `chooseSwapSurfaceFormat`: a lone UNDEFINED entry means any format may be used, so
      the preferred one is; otherwise the preferred one if offered, else the first. */
  function ChooseSwapSurfaceFormat(formats: seq<SurfaceFormat>): (r: SurfaceFormat)
    requires |formats| > 0
    ensures |formats| == 1 && formats[0].format == FormatUndefined ==> r == Preferred
    ensures !(|formats| == 1 && formats[0].format == FormatUndefined) ==>
      && r in formats
      && (Preferred in formats ==> r == Preferred)
      && (Preferred !in formats ==> r == formats[0])
  {
    if |formats| == 1 && formats[0].format == FormatUndefined then Preferred
    else
      assert formats[0..] == formats;
      FirstPreferred(formats, 0, formats[0])
  }

  /** `chooseSwapPresentMode`: MAILBOX if offered, else IMMEDIATE if offered, else FIFO. */
  method ChooseSwapPresentMode(modes: seq<int>) returns (best: int)
    ensures PresentModeMailbox in modes ==> best == PresentModeMailbox
    ensures PresentModeMailbox !in modes && PresentModeImmediate in modes ==> best == PresentModeImmediate
    ensures PresentModeMailbox !in modes && PresentModeImmediate !in modes ==> best == PresentModeFifo
  {
    best := PresentModeFifo;
    var i := 0;
    while i < |modes|
      invariant 0 <= i <= |modes|
      invariant PresentModeMailbox !in modes[..i]
      invariant best == (if PresentModeImmediate in modes[..i] then PresentModeImmediate else PresentModeFifo)
    {
      assert modes[..i + 1] == modes[..i] + [modes[i]];
      if modes[i] == PresentModeMailbox {
        return modes[i];
      } else if modes[i] == PresentModeImmediate {
        best := modes[i];
      }
      i := i + 1;
    }
    assert modes[..i] == modes;
  }

  // ---------------------------------------------------------------------------
  // Extent, image count and frame index

  datatype Extent = Extent(width: uint32, height: uint32)

  /** The fields of `VkSurfaceCapabilitiesKHR` the renderer reads. */
  datatype Capabilities = Capabilities(
    minImageCount: uint32,
    maxImageCount: uint32,
    currentExtent: Extent,
    minImageExtent: Extent,
    maxImageExtent: Extent)

  /** `std::max(lo, std::min(hi, v))`: `v` saturated into `[lo, hi]`, or `lo` when the
      bounds are crossed, since the `max` is taken last. */
  function Clamp(lo: uint32, hi: uint32, v: uint32): (r: uint32)
    ensures lo <= hi ==> lo <= r <= hi
    ensures lo <= v <= hi ==> r == v
    ensures hi < v ==> r == (if lo < hi then hi else lo)
    ensures v < lo ==> r == lo
    ensures hi < lo ==> r == lo
  {
    var capped := if hi < v then hi else v;
    if lo < capped then capped else lo
  }

  /** `chooseSwapExtent`: the surface's current extent, unless its width is the
      0xFFFFFFFF marker, in which case the window size clamped per dimension. */
  function ChooseSwapExtent(caps: Capabilities, window: Extent): (e: Extent)
    ensures caps.currentExtent.width != Uint32Max ==> e == caps.currentExtent
    ensures caps.currentExtent.width == Uint32Max && caps.minImageExtent.width <= caps.maxImageExtent.width ==>
      caps.minImageExtent.width <= e.width <= caps.maxImageExtent.width
    ensures caps.currentExtent.width == Uint32Max && caps.minImageExtent.height <= caps.maxImageExtent.height ==>
      caps.minImageExtent.height <= e.height <= caps.maxImageExtent.height
    ensures (&& caps.currentExtent.width == Uint32Max
             && caps.minImageExtent.width <= window.width <= caps.maxImageExtent.width
             && caps.minImageExtent.height <= window.height <= caps.maxImageExtent.height)
            ==> e == window
    ensures caps.currentExtent.width == Uint32Max ==>
      && e.width == Clamp(caps.minImageExtent.width, caps.maxImageExtent.width, window.width)
      && e.height == Clamp(caps.minImageExtent.height, caps.maxImageExtent.height, window.height)
  {
    if caps.currentExtent.width != Uint32Max then caps.currentExtent
    else
      Extent(Clamp(caps.minImageExtent.width, caps.maxImageExtent.width, window.width),
             Clamp(caps.minImageExtent.height, caps.maxImageExtent.height, window.height))
  }

  /** Each dimension is clamped on its own: a window too tall for the surface keeps
      its width when the width fits. */
  lemma ExtentClampsEachDimension(caps: Capabilities, window: Extent, other: Extent)
    requires caps.currentExtent.width == Uint32Max
    ensures other.width == window.width ==>
      ChooseSwapExtent(caps, other).width == ChooseSwapExtent(caps, window).width
    ensures other.height == window.height ==>
      ChooseSwapExtent(caps, other).height == ChooseSwapExtent(caps, window).height
    ensures caps.minImageExtent.width <= window.width <= caps.maxImageExtent.width ==>
      ChooseSwapExtent(caps, window).width == window.width
  {
  }

  /** The image count of `createSwapChain`: one more than the minimum (a `uint32_t` sum),
      capped at the maximum when the maximum is not 0 (no limit). */
  function ImageCount(caps: Capabilities): (n: uint32)
    ensures caps.maxImageCount > 0 ==> n <= caps.maxImageCount
    ensures caps.minImageCount < Uint32Max && caps.maxImageCount == 0 ==> n == caps.minImageCount + 1
    ensures caps.minImageCount < Uint32Max && caps.maxImageCount > caps.minImageCount ==> n == caps.minImageCount + 1
    ensures caps.minImageCount < Uint32Max && caps.maxImageCount > 0 ==> n >= caps.minImageCount || n == caps.maxImageCount
    ensures caps.minImageCount == Uint32Max ==> n == 0
  {
    var wanted := (caps.minImageCount + 1) % 0x1_0000_0000;
    if caps.maxImageCount > 0 && wanted > caps.maxImageCount then caps.maxImageCount else wanted
  }

  /** Under the limits Vulkan guarantees (at least one image, and a maximum of 0 or no
      less than the minimum) the count lies between the minimum and the maximum. */
  lemma ImageCountWithinLimits(caps: Capabilities)
    requires 1 <= caps.minImageCount < Uint32Max
    requires caps.maxImageCount == 0 || caps.minImageCount <= caps.maxImageCount
    ensures caps.minImageCount <= ImageCount(caps)
    ensures caps.maxImageCount > 0 ==> ImageCount(caps) <= caps.maxImageCount
  {
  }

  /** The frame index update at the end of `drawFrame`. */
  function NextFrame(current: nat): (next: nat)
    ensures next < MaxFramesInFlight
    ensures current < MaxFramesInFlight ==> next != current
  {
    (current + 1) % MaxFramesInFlight
  }

  /** The frame index after `k` frames, starting from 0. */
  function FrameAfter(k: nat): (f: nat)
    ensures f < MaxFramesInFlight
  {
    if k == 0 then 0 else NextFrame(FrameAfter(k - 1))
  }

  /** The frame index alternates 0, 1, 0, 1, ...: after k frames it is k mod 2. */
  lemma {:induction false} FrameAfterAlternates(k: nat)
    ensures FrameAfter(k) == k % MaxFramesInFlight
  {
    if k > 0 {
      FrameAfterAlternates(k - 1);
    }
  }
}
