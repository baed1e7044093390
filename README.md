# Inundation mask

This project models the inundation mask of the sea-level-rise preprocessing
script `preprocess_inundation_rasters.py`. The script reads a raster of
inundation depths and writes a byte raster that marks which pixels are
underwater. The per-block callback `mask_inundation` does the work:

- it allocates an uninitialised `uint8` block with the shape of the depth block;
- it sets every cell to 0;
- it sets to 1 every cell whose depth is strictly positive.

Depths of zero, negative depths and the large negative values that mark nodata
in the depth raster all become 0. The target raster declares 255 as its nodata
value, and the mask never writes 255.

The Dafny module `InundationMask` (file `InundationMask.dfy`) holds these parts:

- `Byte` is the unsigned 8-bit pixel type and `NODATA` is the value 255.
- `MaskValue` is the mask of one pixel.
- `Mask` is a recursive reference definition of the mask of a whole block.
- `MaskInundation` is the imperative method. It allocates a new array. Dafny
  assumes nothing about the contents of that array, which is how it models
  `numpy.empty`. A first loop sets every cell to 0. A second loop sets the
  positive-depth cells to 1. The method is proved against `Mask`.

Depths are real numbers, because the code only compares them with 0. The
block is flattened to one dimension, because the operation is element-wise.
The depth array is only read: `MaskInundation` has no `modifies` clause, so
the verifier checks that it writes nothing but its own fresh array.

## Model

| member | source | states |
|---|---|---|
| InundationMask.MaskValue | preprocess_inundation_rasters.py:38-45 | the value of one pixel is 0 or 1 and never the nodata value 255; it is 1 exactly when the depth is strictly positive |
| InundationMask.Mask | preprocess_inundation_rasters.py:43 | the mask of a block has as many cells as the block of depths |
| InundationMask.MaskAt | preprocess_inundation_rasters.py:45 | cell i of the mask is the mask of depth i alone |
| InundationMask.MaskUnderwaterIff | preprocess_inundation_rasters.py:34-45 | cell i is 1 if and only if depth i is strictly positive, and 0 if and only if depth i is zero, negative or a large negative nodata value |
| InundationMask.MaskIsBinary | preprocess_inundation_rasters.py:44-50 | every cell of the mask is 0 or 1, and 255 (the target nodata value) occurs nowhere |
| InundationMask.MaskPointwise | preprocess_inundation_rasters.py:45 | changing depth j leaves every mask cell i other than j unchanged |
| InundationMask.MaskBlocks | preprocess_inundation_rasters.py:45 | the mask distributes over concatenation: masking two consecutive runs of the flattened raster (such as blocks of whole rows) and joining the results equals masking the whole |
| InundationMask.MaskWindow | preprocess_inundation_rasters.py:34-45 | masking any selection of cells (such as a 2-D window of the raster) gives the same cells as masking the whole raster and selecting them afterwards |
| InundationMask.MaskExample | preprocess_inundation_rasters.py:34-45 | a block of depths 3.25, 0.001, 0, -1.5 and the most negative 32-bit float masks to 1, 1, 0, 0, 0 |
| InundationMask.MaskInundation | preprocess_inundation_rasters.py:30-46 | returns a freshly allocated array of the same length as the depths whose cell i is the mask of depth i, equal to `Mask` of the depths; the depth array is unchanged |

## Left out

- The raster I/O around the mask is not modelled. The `pygeoprocessing.raster_calculator` call reads the depth raster in blocks, writes a GDAL byte raster and records 255 as its nodata value (lines 48-50). It runs in a library whose code is not part of this model, so the way it splits the raster into blocks is not modelled. `MaskWindow` shows that masking any selection of cells agrees with masking the whole raster, whatever the blocks are.
- The command-line entry point `main(*sys.argv[1:])` (lines 53-54) is argument plumbing and is not modelled.
- IEEE floating-point values that are not numbers (NaN, infinities) are not modelled. Depths are real numbers, and the code only compares them with 0.
- The two-dimensional shape of a raster block is flattened to one dimension. The mask is element-wise, so only the number of cells matters.
- numpy dtype and memory-layout details are not modelled beyond a fresh array of unsigned 8-bit values of the input's size.
