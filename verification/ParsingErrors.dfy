/** The errors that reading the configuration ends with. */
module ParsingErrors {
  datatype ParsingError =
    | ACTION_ADDRESS_WRONG_FORMAT
    | ACTION_DATA_SECTION_NOT_FOUND
    | ACTION_FUNCTION_CODE_WRONG_FORMAT
    | ACTION_ID_WRONG_FORMAT
    | ACTION_INTERVALL_WRONG_FORMAT
    | ACTION_REGISTER_ADDRESS_WRONG_FORMAT
    | ACTION_REGISTER_QUANTITY_WRONG_FORMAT
    | EXTEND_SECTION_NOT_FOUND
    | GENERAL_EXCEPTION
    | INPUT_PARAMETER_SECTION_NOT_FOUND
    | OFFSET_POSITION_PARAMETER_NOT_FOUND
    | OFFSET_POSITION_PARAMETER_WRONG_TYPE
    | OUTPUT_PARAMETER_SECTION_NOT_FOUND
    | PROCESS_IMAGE_OBJECT_EMPTY
    | PROCESS_IMAGE_WRONG_TYPE
}
