# Kinect sample logic in Dafny

This project models the two pieces of pure logic in the Kinect for Windows
sample applications.

**Depth-to-colour conversion** (`Kinect_Depth`). This is `ConvertDepthToColorImage`.
- It takes the frame's signed 16-bit depth samples. It shifts each sample right
  past the player-index bits to get a distance.
- It compares the distance with the depth stream's three sentinels in a fixed
  order: unknown, then too near, then too far.
- It writes one Bgr32 pixel per sample into a zero-filled byte array. Each pixel
  is four bytes: blue, green, red, and an unused byte. A sentinel gets a fixed
  colour. Any other distance gets a level, written to the green and red
  channels only: `(byte)(255 * distance / TooFarDepth)`. In Bgr32 that is a
  shade of yellow.
- The model follows the C# semantics exactly:
  - `>>` on an `int` masks its count to five bits and propagates the sign.
  - Integer division truncates toward zero, unlike Dafny's Euclidean `/`.
  - The unchecked `(byte)` cast keeps the value modulo 256. Nothing clamps it.
- The sentinels, the player-index width and the too-far divisor are parameters
  (`DepthSettings`). The vendor runtime supplies them.

**Joint markers** (`Kinect_Skeleton`). These are `DrawSkeleton` and `DrawEllipse`.
- On every skeleton frame the canvas is cleared first.
- One circle of radius 5 is then added for each joint whose state is not
  `NotTracked`, in each skeleton whose state is `Tracked`.
- Each circle is centred on the joint's position projected into the colour
  image. Its margin `point.X - R`, `point.Y - R` is unchecked C# `int`
  arithmetic, and the model keeps its 32-bit wrap-around.
- The projection (`MapSkeletonPointToColor`) is a parameter of type
  `SkeletonPoint -> ColorImagePoint`.

Modules:
- `CSharpInt` (`csharp_int.dfy`): `short`, `byte`, `int`, `>>`, truncating `/`, the `(byte)` cast and unchecked `int` wrap-around.
- `DepthColor` (`depth_color.dfy`): the distance, its band, its shade and its pixel.
- `DepthImage` (`depth_image.dfy`): the Bgr32 buffer layout and the array loop.
- `SkeletonView` (`skeleton_view.dfy`): marker selection and the canvas.
- `Wrappers` (`wrappers.dfy`): `Option`.

The colours are easy to misread, because the bytes are in Bgr32 order:
- An unknown distance gets bytes (0, 0, 255). In Bgr32 order that is red.
- A too-far distance gets bytes (255, 0, 0). In Bgr32 order that is blue.

Reading the same bytes in RGB order would swap these two colours. The model
keeps the bytes exactly as the code writes them. The code's own comments also
call the unknown band red and the too-far band blue.

## Model

| member | source | states |
|---|---|---|
| DepthImage.ConvertDepthToColorImage | Kinect_RGB_Depth_Sample/Kinect_Depth/MainWindow.xaml.cs:83-131 | The array loop allocates a zero-filled buffer of 4·n bytes and runs the source's if/else chain for each sample. The result is exactly the image `FrameBytes` of the samples: each pixel has its sample's colour, and its fourth byte is the untouched zero. |
| DepthImage.FrameBytes | Kinect_RGB_Depth_Sample/Kinect_Depth/MainWindow.xaml.cs:88-91 | The output has exactly `Bgr32BytesPerPixel * n` bytes for n samples. |
| DepthImage.PixelBytes | Kinect_RGB_Depth_Sample/Kinect_Depth/MainWindow.xaml.cs:91-127 | A pixel takes `Bgr32BytesPerPixel` = 4 bytes, its fourth byte is 0, and reading the bytes back gives the same pixel. |
| DepthImage.WritePixel | Kinect_RGB_Depth_Sample/Kinect_Depth/MainWindow.xaml.cs:95-127 | One loop iteration's if/else chain stores exactly the blue, green and red bytes of the sample's colour at its pixel slot, and changes no other byte. |
| DepthImage.WriteChannels | Kinect_RGB_Depth_Sample/Kinect_Depth/MainWindow.xaml.cs:101-126 | Each branch writes the blue, green and red bytes at `index`, `index + 1` and `index + 2`, and changes no other byte of the buffer. |
| DepthImage.FrameBytesLayout | Kinect_RGB_Depth_Sample/Kinect_Depth/MainWindow.xaml.cs:91-127 | Pixel i lives at bytes 4i, 4i+1 and 4i+2 and holds the colour of sample i. Byte 4i+3 is 0. |
| DepthImage.FrameBytesSnoc | Kinect_RGB_Depth_Sample/Kinect_Depth/MainWindow.xaml.cs:92-128 | Appending a sample appends exactly its own four pixel bytes. Earlier pixels do not change. |
| DepthImage.DecodeFrame | Kinect_RGB_Depth_Sample/Kinect_Depth/MainWindow.xaml.cs:96 | Reading a buffer of 4·n bytes back gives n pixels. |
| DepthImage.DecodeFrameBytes | Kinect_RGB_Depth_Sample/Kinect_Depth/MainWindow.xaml.cs:91-127 | Round trip: reading the image back gives the colour of every sample, in sample order. |
| DepthImage.PixelDependsOnItsSampleOnly | Kinect_RGB_Depth_Sample/Kinect_Depth/MainWindow.xaml.cs:92-96 | Pixel i depends only on sample i. Two frames that agree at index i have the same pixel i, whatever their other samples are. |
| DepthImage.ConversionStep | Kinect_RGB_Depth_Sample/Kinect_Depth/MainWindow.xaml.cs:92-128 | One loop iteration turns "i pixels, then zeros" into "i+1 pixels, then zeros". |
| DepthImage.PixelWritten | Kinect_RGB_Depth_Sample/Kinect_Depth/MainWindow.xaml.cs:101-126 | Writing the three channels of a pixel over zeros appends that pixel. Its fourth byte stays 0. |
| DepthImage.PixelSlotInBounds | Kinect_RGB_Depth_Sample/Kinect_Depth/MainWindow.xaml.cs:96 | `index * 4 + 3` is inside the buffer for every sample index. |
| DepthImage.BufferMatchesStride | Kinect_RGB_Depth_Sample/Kinect_Depth/MainWindow.xaml.cs:65-67 | A frame of width·height samples yields `height` rows of `width * 4` bytes. That is the stride handed to the bitmap. |
| DepthColor.Distance | Kinect_RGB_Depth_Sample/Kinect_Depth/MainWindow.xaml.cs:95 | The distance is negative exactly when the raw sample is. It lies between the sample and 0. |
| CSharpInt.ShiftRight | Kinect_RGB_Depth_Sample/Kinect_Depth/MainWindow.xaml.cs:95 | `x >> count` is the floor of x / 2^(count mod 32): `r·2^k <= x < (r+1)·2^k`. |
| CSharpInt.ArithShift | Kinect_RGB_Depth_Sample/Kinect_Depth/MainWindow.xaml.cs:95 | Shifting one bit at a time gives the floor quotient by 2^n. |
| CSharpInt.ShiftRightKeepsSign | Kinect_RGB_Depth_Sample/Kinect_Depth/MainWindow.xaml.cs:95 | An arithmetic shift keeps the sign and never grows the magnitude. A negative raw sample gives a negative distance. |
| DepthColor.LevelProductFitsInt32 | Kinect_RGB_Depth_Sample/Kinect_Depth/MainWindow.xaml.cs:95-122 | For every 16-bit sample, `255 * distance` fits in a C# `int`, so that product never wraps. |
| DepthColor.Classify | Kinect_RGB_Depth_Sample/Kinect_Depth/MainWindow.xaml.cs:99-120 | Each band holds exactly when its sentinel matches and no earlier sentinel does (both directions). The order is unknown, then too near, then too far. A measured band keeps the distance. |
| DepthColor.ClassifyInverse | Kinect_RGB_Depth_Sample/Kinect_Depth/MainWindow.xaml.cs:99-120 | The band determines the distance, so classification loses nothing. |
| DepthColor.PixelColor | Kinect_RGB_Depth_Sample/Kinect_Depth/MainWindow.xaml.cs:99-127 | Unknown gives (0,0,255). Too near, and not unknown, gives (0,255,0). Too far, and neither earlier sentinel, gives (255,0,0). Any other distance d gives (0,c,c) with c the channel level of d. |
| DepthColor.PixelColorReveals | Kinect_RGB_Depth_Sample/Kinect_Depth/MainWindow.xaml.cs:99-127 | A pixel shows red, green or blue exactly when its distance is that sentinel, with earlier sentinels winning. It shows a channel level exactly when the distance is none of them. |
| DepthColor.BandShade | Kinect_RGB_Depth_Sample/Kinect_Depth/MainWindow.xaml.cs:99-126 | Unknown, too near and too far each get their own fixed shade (red, green, blue, both directions). Only a measured distance gets a level, and that level is the level of its distance. |
| DepthColor.Paint | Kinect_RGB_Depth_Sample/Kinect_Depth/MainWindow.xaml.cs:101-126 | All shades are painted differently, so the shade can be read back off the pixel. |
| DepthColor.ShadeOfSound | Kinect_RGB_Depth_Sample/Kinect_Depth/MainWindow.xaml.cs:101-126 | Reading a shade back off a pixel and painting it gives the same pixel. |
| CSharpInt.TruncDiv | Kinect_RGB_Depth_Sample/Kinect_Depth/MainWindow.xaml.cs:122 | C# division: the remainder has the dividend's sign and is smaller in magnitude than the divisor. |
| CSharpInt.TruncDivUnique | Kinect_RGB_Depth_Sample/Kinect_Depth/MainWindow.xaml.cs:122 | Only one quotient has that remainder. |
| CSharpInt.TruncDivNonNegative | Kinect_RGB_Depth_Sample/Kinect_Depth/MainWindow.xaml.cs:122 | On non-negative operands, C# division agrees with Euclidean division. |
| CSharpInt.TruncDivSign | Kinect_RGB_Depth_Sample/Kinect_Depth/MainWindow.xaml.cs:122 | Dividing by a positive divisor keeps the dividend's sign. |
| CSharpInt.TruncDivMonotone | Kinect_RGB_Depth_Sample/Kinect_Depth/MainWindow.xaml.cs:122 | Dividing by a positive divisor is monotone. |
| CSharpInt.ToByte | Kinect_RGB_Depth_Sample/Kinect_Depth/MainWindow.xaml.cs:122 | The `(byte)` cast is the identity on 0..255 and adds 256 to -256..-1. |
| CSharpInt.ToBytePeriodic | Kinect_RGB_Depth_Sample/Kinect_Depth/MainWindow.xaml.cs:122 | Values 256 apart cast to the same byte. |
| DepthColor.DepthLevel | Kinect_RGB_Depth_Sample/Kinect_Depth/MainWindow.xaml.cs:122 | For 0 <= d < TooFarDepth, the level c is below 255 and is d's share of TooFarDepth scaled to 255 and rounded down: c·TooFarDepth <= 255·d < (c+1)·TooFarDepth. |
| DepthColor.LevelQuotientInRange | Kinect_RGB_Depth_Sample/Kinect_Depth/MainWindow.xaml.cs:122 | For 0 <= d < TooFarDepth, the quotient `255*d / TooFarDepth` lies in [0, 255). |
| DepthColor.DepthLevelInRange | Kinect_RGB_Depth_Sample/Kinect_Depth/MainWindow.xaml.cs:122 | For 0 <= d < TooFarDepth, the cast does not wrap and the level lies in [0, 255). |
| DepthColor.DepthLevelMonotone | Kinect_RGB_Depth_Sample/Kinect_Depth/MainWindow.xaml.cs:122 | For 0 <= d < TooFarDepth, the level never decreases as d grows. |
| DepthColor.DepthLevelWraps | Kinect_RGB_Depth_Sample/Kinect_Depth/MainWindow.xaml.cs:122 | Nothing clamps the level. Distances 256·TooFarDepth apart get the same level. |
| DepthColor.SmallNegativeIsBlack | Kinect_RGB_Depth_Sample/Kinect_Depth/MainWindow.xaml.cs:122 | Division truncates: a negative d with -255·d < TooFarDepth gets level 0, where floor division would give -1 and so 255. |
| DepthColor.ExamplePlayerOnlySample | Kinect_RGB_Depth_Sample/Kinect_Depth/MainWindow.xaml.cs:95-111 | With a 3-bit player index, sample 0x0007 has distance 0. With the too-near sentinel 0 and the unknown sentinel -1 it is painted (0,255,0). |
| SkeletonView.DrawEllipse | Kinect_Player_Skeleton_Sample/Kinect_Skeleton/MainWindow.xaml.cs:150-166 | The circle is 10 by 10. Its left is X-5 and its top is Y-5 in 32-bit arithmetic: when X-5 (or Y-5) stays a C# `int` it is exact, and the circle is centred on the projected point (X, Y); when X (or Y) is within 5 of `int.MinValue` the margin wraps to X-5+2^32. |
| CSharpInt.WrapInt32 | Kinect_Player_Skeleton_Sample/Kinect_Skeleton/MainWindow.xaml.cs:162 | Unchecked `int` arithmetic: the identity on C# `int`s, and a shift by 2^32 just outside that range. |
| CSharpInt.WrapInt32Periodic | Kinect_Player_Skeleton_Sample/Kinect_Skeleton/MainWindow.xaml.cs:162 | Two values wrap to the same C# `int` exactly when they differ by a multiple of 2^32. |
| SkeletonView.MarginInjective | Kinect_Player_Skeleton_Sample/Kinect_Skeleton/MainWindow.xaml.cs:162 | The wrapped margin `c - 5` determines the coordinate c of a C# `int`. |
| SkeletonView.DrawEllipseDeterminedByCentre | Kinect_Player_Skeleton_Sample/Kinect_Skeleton/MainWindow.xaml.cs:153-164 | Two joints get the same circle exactly when they project to the same point, even where the margin wraps. |
| SkeletonView.DrawSkeleton | Kinect_Player_Skeleton_Sample/Kinect_Skeleton/MainWindow.xaml.cs:115-143 | The canvas is cleared, then the nested loops append markers. The result is `FrameMarkers` of the current skeletons, whatever the previous canvas held. The count is the sum of drawn joints over tracked skeletons. |
| SkeletonView.IsDrawn | Kinect_Player_Skeleton_Sample/Kinect_Skeleton/MainWindow.xaml.cs:133 | A joint is drawn exactly when its state is `Inferred` or `Tracked`. |
| SkeletonView.JointMarkers | Kinect_Player_Skeleton_Sample/Kinect_Skeleton/MainWindow.xaml.cs:130-140 | A joint list has one marker per joint that is not `NotTracked`. With no such joint it has none; with only such joints it has one per joint. |
| SkeletonView.SkeletonMarkers | Kinect_Player_Skeleton_Sample/Kinect_Skeleton/MainWindow.xaml.cs:127 | A skeleton that is not `Tracked` adds no marker. A tracked one adds one per joint that is not `NotTracked`. |
| SkeletonView.FrameMarkers | Kinect_Player_Skeleton_Sample/Kinect_Skeleton/MainWindow.xaml.cs:124-142 | The marker count is the sum, over tracked skeletons, of the number of their joints that are not `NotTracked`. |
| SkeletonView.DrawnCountSnoc | Kinect_Player_Skeleton_Sample/Kinect_Skeleton/MainWindow.xaml.cs:133-136 | One more joint adds one to the drawn count exactly when its state is not `NotTracked`. |
| SkeletonView.FrameMarkersAppend | Kinect_Player_Skeleton_Sample/Kinect_Skeleton/MainWindow.xaml.cs:124-142 | Markers come in skeleton-array order: the markers of a + b are those of a followed by those of b. |
| SkeletonView.JointMarkersAppend | Kinect_Player_Skeleton_Sample/Kinect_Skeleton/MainWindow.xaml.cs:130-140 | Within a skeleton, markers come in joint order. |
| SkeletonView.JointContribution | Kinect_Player_Skeleton_Sample/Kinect_Skeleton/MainWindow.xaml.cs:130-139 | A `NotTracked` joint contributes no marker. Any other joint, inferred included, contributes exactly its own circle in its own place. |
| SkeletonView.UntrackedSkeletonAddsNothing | Kinect_Player_Skeleton_Sample/Kinect_Skeleton/MainWindow.xaml.cs:127 | A skeleton that is not `Tracked` contributes zero markers, wherever it appears. |
| SkeletonView.FrameMarkersMembership | Kinect_Player_Skeleton_Sample/Kinect_Skeleton/MainWindow.xaml.cs:124-142 | A circle is on the canvas exactly when it is the circle of some non-`NotTracked` joint of some tracked skeleton (both directions). |
| SkeletonView.JointMarkersSnoc | Kinect_Player_Skeleton_Sample/Kinect_Skeleton/MainWindow.xaml.cs:130-140 | One more joint adds its own marker, if it is drawn, and nothing else. |
| SkeletonView.FrameMarkersSnoc | Kinect_Player_Skeleton_Sample/Kinect_Skeleton/MainWindow.xaml.cs:124-142 | One more skeleton adds its joints' markers if it is tracked, and nothing else. |
| SkeletonView.JointMarkerWitness | Kinect_Player_Skeleton_Sample/Kinect_Skeleton/MainWindow.xaml.cs:130-139 | Every marker of a joint list is the marker of one of its drawn joints, and the lemma names that joint. |
| SkeletonView.JointMarkerPresent | Kinect_Player_Skeleton_Sample/Kinect_Skeleton/MainWindow.xaml.cs:130-139 | The marker of every drawn joint is among the list's markers. |
| SkeletonView.FrameMarkerWitness | Kinect_Player_Skeleton_Sample/Kinect_Skeleton/MainWindow.xaml.cs:124-142 | Every marker on the canvas belongs to a drawn joint of a tracked skeleton, and the lemma names both. |
| SkeletonView.FrameMarkerPresent | Kinect_Player_Skeleton_Sample/Kinect_Skeleton/MainWindow.xaml.cs:124-142 | The marker of every drawn joint of every tracked skeleton is on the canvas. |
| SkeletonView.JointMarkersMembership | Kinect_Player_Skeleton_Sample/Kinect_Skeleton/MainWindow.xaml.cs:130-139 | A circle is among a joint list's markers exactly when it is the circle of one of its non-`NotTracked` joints. |

## Left out

- DepthColor.PixelColor: requires `TooFarDepth != 0`. In C#, a zero divisor throws `DivideByZeroException` for any distance that is not a sentinel. The frame callback catches it, shows a message box and drops the frame. The model does not include that error path.
- DepthImage.ConvertDepthToColorImage: requires `TooFarDepth != 0`, for the same reason as `PixelColor`.
- DepthImage.ConvertDepthToColorImage: the contract does not say that the returned array is newly allocated (`fresh`). The body allocates it with `new`, as the source does, but the contract states only its length and contents.
- DepthImage.ConvertDepthToColorImage: `index * Bgr32BytesPerPixel` and `PixelDataLength * Bgr32BytesPerPixel` are unbounded here. In C# they would overflow `int` only above 2^29 samples, and a depth frame has at most 640×480.
- The sensor's sentinel values and `PlayerIndexBitmaskWidth` are not visible in these sources, so all four are parameters.
- `MapSkeletonPointToColor` is vendor calibration math, partly floating point. It is an arbitrary function parameter.
- Skeleton positions are `real`s, not single-precision floats.
- The ellipse's red fill brush, and the zero right and bottom margins, are not modelled. An ellipse is its left, top, width and height.
- Opening the sensor, enabling streams, `Start`, `Stop`, `Dispose` and event subscription in the window constructors and `Window_Closing` are SDK plumbing. They are left out. Teardown is not idempotent. `kinect` is assigned as soon as a sensor is found, and a close of a running sensor sets it back to null. So a close after the constructor found no sensor, or a second close after a successful one, dereferences a null sensor.
- The frame-ready callbacks, their threading, the `using` scopes and the message-box error reporting are left out. They belong to the runtime and the UI.
- `BitmapSource.Create` and `Canvas.Children` are represented by a byte sequence, a byte array and a sequence of ellipses.
- `Kinect_RGB/MainWindow.xaml.cs` is not part of this model. It only copies a buffer the SDK provides into a bitmap.
